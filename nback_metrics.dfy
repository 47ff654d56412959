/**
 * Scoring of a finished 2-back trial list: outcome counts, raw rates,
 * accuracy, hit reaction-time statistics and the signal-detection indices
 * d' and criterion. The inverse normal CDF (Acklam's approximation) is a
 * parameter `z`; the hit-RT dispersion is kept as the sample variance.
 */
module NBackMetrics {
  import opened Wrappers
  import opened NBackTrials
  import opened Stats

  datatype NBackMetrics = NBackMetrics(
    totalTrials: nat,
    targetTrials: nat,
    nonTargetTrials: nat,
    hits: nat,
    misses: nat,
    falseAlarms: nat,
    correctRejections: nat,
    hitRate: real,
    falseAlarmRate: real,
    accuracy: real,
    dPrime: real,
    criterion: real,
    meanHitRtMs: real,
    medianHitRtMs: real,
    hitRtVariance: real,
    p10HitRtMs: real,
    p90HitRtMs: real,
    responseCount: nat)

  /** The all-zero record (`NBackMetrics::default()`). */
  const Empty := NBackMetrics(0, 0, 0, 0, 0, 0, 0, 0.0, 0.0, 0.0, 0.0, 0.0, 0.0, 0.0, 0.0, 0.0, 0.0, 0)

  predicate IsTarget(t: NBackTrial) { t.isTarget }
  predicate IsNonTarget(t: NBackTrial) { !t.isTarget }
  predicate IsHit(t: NBackTrial) { t.outcome.Hit? }
  predicate IsMiss(t: NBackTrial) { t.outcome.Miss? }
  predicate IsFalseAlarm(t: NBackTrial) { t.outcome.FalseAlarm? }
  predicate IsCorrectRejection(t: NBackTrial) { t.outcome.CorrectRejection? }
  predicate IsDone(t: NBackTrial) { t.IsCompleted() }

  /** Reaction times of the Hit trials, in trial order. */
  function HitRts(ts: seq<NBackTrial>): (rts: seq<real>)
    ensures |rts| == Count(ts, IsHit)
  {
    if ts == [] then []
    else
      var last := ts[|ts| - 1];
      HitRts(ts[..|ts| - 1]) + (if last.outcome.Hit? then [last.outcome.rtMs] else [])
  }

  lemma {:induction false} TargetPartition(ts: seq<NBackTrial>)
    ensures Count(ts, IsTarget) + Count(ts, IsNonTarget) == |ts|
  {
    if ts != [] {
      TargetPartition(ts[..|ts| - 1]);
    }
  }

  /** The four outcome counters together tally exactly the non-Pending trials. */
  lemma {:induction false} OutcomePartition(ts: seq<NBackTrial>)
    ensures Count(ts, IsHit) + Count(ts, IsMiss) + Count(ts, IsFalseAlarm) + Count(ts, IsCorrectRejection)
            == Count(ts, IsDone)
  {
    if ts != [] {
      OutcomePartition(ts[..|ts| - 1]);
    }
  }

  /** Counting between two predicates where one implies the other. */
  lemma {:induction false} CountMonotone(ts: seq<NBackTrial>, p: NBackTrial -> bool, q: NBackTrial -> bool)
    requires forall i :: 0 <= i < |ts| ==> p(ts[i]) ==> q(ts[i])
    ensures Count(ts, p) <= Count(ts, q)
  {
    if ts != [] {
      CountMonotone(ts[..|ts| - 1], p, q);
    }
  }

  /** Raw rate `count / trials`, or 0 when there are no trials of that kind. */
  function Rate(count: nat, trials: nat): (r: real)
    ensures trials == 0 ==> r == 0.0
    ensures count <= trials ==> 0.0 <= r <= 1.0
  {
    if trials > 0 then
      if count <= trials then FractionBounds(count as real, trials as real); count as real / trials as real
      else count as real / trials as real
    else 0.0
  }

  lemma RateTimesTrials(count: nat, trials: nat)
    requires trials > 0
    ensures Rate(count, trials) * (trials as real) == count as real
  {
  }

  /** Log-linear corrected rate `(count + 1/2) / (max(trials, 1) + 1)`. */
  function AdjustedRate(count: nat, trials: nat): (r: real)
    ensures count <= (if trials > 0 then trials else 1) ==> 0.0 < r < 1.0
  {
    var n := if trials > 0 then trials else 1;
    if count <= n then
      FractionBounds(count as real + 0.5, n as real + 1.0);
      (count as real + 0.5) / (n as real + 1.0)
    else (count as real + 0.5) / (n as real + 1.0)
  }

  lemma AdjustedRateMonotone(c1: nat, c2: nat, trials: nat)
    requires c1 <= c2
    ensures AdjustedRate(c1, trials) <= AdjustedRate(c2, trials)
  {
    var n := (if trials > 0 then trials else 1) as real + 1.0;
    assert AdjustedRate(c1, trials) * n == c1 as real + 0.5;
    assert AdjustedRate(c2, trials) * n == c2 as real + 0.5;
  }

  /** `clamp(x, 1e-6, 1 - 1e-6)`. */
  function ClampRate(x: real): (r: real)
    ensures 0.000001 <= r <= 0.999999
    ensures 0.000001 <= x <= 0.999999 ==> r == x
  {
    if x < 0.000001 then 0.000001 else if x > 0.999999 then 0.999999 else x
  }

  /**
   * `(d_prime, criterion)` from the counts: z-transform the clamped,
   * corrected hit and false-alarm rates; d' = z_hit - z_fa and
   * criterion = -(z_hit + z_fa) / 2.
   */
  function SignalDetection(hits: nat, falseAlarms: nat, targets: nat, nonTargets: nat, z: real -> real): (r: (real, real))
    ensures z(ClampRate(AdjustedRate(hits, targets))) == r.0 / 2.0 - r.1
    ensures z(ClampRate(AdjustedRate(falseAlarms, nonTargets))) == -r.0 / 2.0 - r.1
  {
    var zHit := z(ClampRate(AdjustedRate(hits, targets)));
    var zFa := z(ClampRate(AdjustedRate(falseAlarms, nonTargets)));
    (zHit - zFa, -0.5 * (zHit + zFa))
  }

  ghost predicate Monotone(z: real -> real) {
    forall x, y :: x <= y ==> z(x) <= z(y)
  }

  /**
   * With a non-decreasing z, d' does not decrease as hits grow and does not
   * increase as false alarms grow.
   */
  lemma DPrimeMonotone(h1: nat, h2: nat, f1: nat, f2: nat, targets: nat, nonTargets: nat, z: real -> real)
    requires Monotone(z)
    requires h1 <= h2 && f2 <= f1
    ensures SignalDetection(h1, f1, targets, nonTargets, z).0 <= SignalDetection(h2, f2, targets, nonTargets, z).0
  {
    AdjustedRateMonotone(h1, h2, targets);
    AdjustedRateMonotone(f2, f1, nonTargets);
    assert ClampRate(AdjustedRate(h1, targets)) <= ClampRate(AdjustedRate(h2, targets));
    assert ClampRate(AdjustedRate(f2, nonTargets)) <= ClampRate(AdjustedRate(f1, nonTargets));
  }

  /**
   * The record built from the counters and the ascending hit reaction
   * times; the reaction-time statistics are 0 when there was no hit.
   */
  function Assemble(total: nat, targets: nat, nonTargets: nat, hits: nat, misses: nat,
                    falseAlarms: nat, correctRejections: nat, sortedRts: seq<real>, z: real -> real): (m: NBackMetrics)
    requires total > 0
    ensures m.totalTrials == total && m.targetTrials == targets && m.nonTargetTrials == nonTargets
    ensures m.hits == hits && m.misses == misses && m.falseAlarms == falseAlarms
    ensures m.correctRejections == correctRejections && m.responseCount == hits + falseAlarms
    ensures m.hitRate == Rate(hits, targets) && m.falseAlarmRate == Rate(falseAlarms, nonTargets)
    ensures (m.dPrime, m.criterion) == SignalDetection(hits, falseAlarms, targets, nonTargets, z)
    ensures sortedRts == [] ==> (m.meanHitRtMs == 0.0 && m.medianHitRtMs == 0.0 && m.hitRtVariance == 0.0
                                 && m.p10HitRtMs == 0.0 && m.p90HitRtMs == 0.0)
    ensures |sortedRts| == 1 ==> (m.medianHitRtMs == sortedRts[0] && m.p10HitRtMs == sortedRts[0]
                                  && m.p90HitRtMs == sortedRts[0])
  {
    var mean := if sortedRts == [] then 0.0 else Mean(sortedRts);
    var sdt := SignalDetection(hits, falseAlarms, targets, nonTargets, z);
    NBackMetrics(
      total, targets, nonTargets, hits, misses, falseAlarms, correctRejections,
      Rate(hits, targets), Rate(falseAlarms, nonTargets),
      Rate(hits + correctRejections, total),
      sdt.0, sdt.1,
      mean,
      if sortedRts == [] then 0.0 else Percentile(sortedRts, 0.5),
      if sortedRts == [] then 0.0 else Variance(sortedRts, mean),
      if sortedRts == [] then 0.0 else Percentile(sortedRts, 0.10),
      if sortedRts == [] then 0.0 else Percentile(sortedRts, 0.90),
      hits + falseAlarms)
  }

  /** The record `from_trials` returns, stated from the counts over the whole list. */
  function Summarize(ts: seq<NBackTrial>, z: real -> real): (m: NBackMetrics)
    ensures ts == [] ==> m == Empty
  {
    if ts == [] then Empty
    else
      Assemble(|ts|, Count(ts, IsTarget), Count(ts, IsNonTarget), Count(ts, IsHit), Count(ts, IsMiss),
               Count(ts, IsFalseAlarm), Count(ts, IsCorrectRejection), SortAscending(HitRts(ts)), z)
  }

  /** Trials whose outcome agrees with their target flag (what the engine produces). */
  ghost predicate ConsistentlyClassified(ts: seq<NBackTrial>) {
    forall i :: 0 <= i < |ts| ==>
      ((ts[i].outcome.Hit? || ts[i].outcome.Miss?) ==> ts[i].isTarget)
      && ((ts[i].outcome.FalseAlarm? || ts[i].outcome.CorrectRejection?) ==> !ts[i].isTarget)
  }

  /** Properties of the summary of any non-empty trial list: the counters. */
  lemma SummarizeCounts(ts: seq<NBackTrial>, z: real -> real)
    requires ts != []
    ensures var m := Summarize(ts, z);
      && m.totalTrials == |ts|
      && m.targetTrials == Count(ts, IsTarget) && m.nonTargetTrials == Count(ts, IsNonTarget)
      && m.hits == Count(ts, IsHit) && m.misses == Count(ts, IsMiss)
      && m.falseAlarms == Count(ts, IsFalseAlarm) && m.correctRejections == Count(ts, IsCorrectRejection)
      && m.targetTrials + m.nonTargetTrials == m.totalTrials
      && m.hits + m.misses + m.falseAlarms + m.correctRejections == Count(ts, IsDone)
      && m.responseCount == m.hits + m.falseAlarms
      && (m.hits == 0 ==> m.meanHitRtMs == 0.0 && m.medianHitRtMs == 0.0 && m.hitRtVariance == 0.0)
  {
    TargetPartition(ts);
    OutcomePartition(ts);
  }

  /** `Count` over a four-trial list, one trial at a time. */
  lemma CountOfFour(t0: NBackTrial, t1: NBackTrial, t2: NBackTrial, t3: NBackTrial, p: NBackTrial -> bool)
    ensures Count([t0, t1, t2, t3], p)
         == (if p(t0) then 1 else 0) + (if p(t1) then 1 else 0) + (if p(t2) then 1 else 0) + (if p(t3) then 1 else 0)
  {
    assert [t0][..0] == [];
    assert Count([t0], p) == (if p(t0) then 1 else 0);
    assert [t0, t1][..1] == [t0];
    assert Count([t0, t1], p) == Count([t0], p) + (if p(t1) then 1 else 0);
    assert [t0, t1, t2][..2] == [t0, t1];
    assert Count([t0, t1, t2], p) == Count([t0, t1], p) + (if p(t2) then 1 else 0);
    assert [t0, t1, t2, t3][..3] == [t0, t1, t2];
  }

  /**
   * The four-trial session of the source's unit test: a correct rejection,
   * a false alarm at 420 ms, a hit at 480 ms and a miss.
   */
  const UnitTestTrials: seq<NBackTrial> := [
    NBackTrial(0, 'A', false, false, None, None, CorrectRejection),
    NBackTrial(1, 'B', false, false, None, None, FalseAlarm(420.0)),
    NBackTrial(2, 'C', true, false, None, None, Hit(480.0)),
    NBackTrial(3, 'D', true, false, None, None, Miss)]

  /** A summary whose only hit took `rt` reports `rt` as the median hit time. */
  lemma SummarizeSingleHitMedian(ts: seq<NBackTrial>, z: real -> real, rt: real)
    requires ts != [] && HitRts(ts) == [rt]
    ensures Summarize(ts, z).medianHitRtMs == rt
  {
    assert SortAscending([rt]) == [rt];
  }

  /** The hit reaction times of the unit-test session. */
  lemma UnitTestHitRts()
    ensures HitRts(UnitTestTrials) == [480.0]
  {
    var ts := UnitTestTrials;
    assert ts[..3][..2][..1][..0] == [];
    assert HitRts(ts[..3][..2][..1]) == [];
    assert HitRts(ts[..3][..2]) == [];
    assert HitRts(ts[..3]) == [480.0];
  }

  /** The counters and the median hit reaction time of that session. */
  lemma MetricsExample(z: real -> real)
    ensures var m := Summarize(UnitTestTrials, z);
      && m.totalTrials == 4 && m.hits == 1 && m.falseAlarms == 1 && m.misses == 1
      && m.correctRejections == 1 && m.targetTrials == 2 && m.medianHitRtMs == 480.0
  {
    var ts := UnitTestTrials;
    var t0, t1, t2, t3 := ts[0], ts[1], ts[2], ts[3];
    assert ts == [t0, t1, t2, t3];
    CountOfFour(t0, t1, t2, t3, IsHit);
    CountOfFour(t0, t1, t2, t3, IsMiss);
    CountOfFour(t0, t1, t2, t3, IsFalseAlarm);
    CountOfFour(t0, t1, t2, t3, IsCorrectRejection);
    CountOfFour(t0, t1, t2, t3, IsTarget);
    SummarizeCounts(ts, z);
    UnitTestHitRts();
    SummarizeSingleHitMedian(ts, z, 480.0);
  }

  /** Accuracy is the share of hits and correct rejections among all trials. */
  lemma AssembleAccuracy(total: nat, targets: nat, nonTargets: nat, hits: nat, misses: nat,
                         falseAlarms: nat, correctRejections: nat, sortedRts: seq<real>, z: real -> real)
    requires total > 0 && hits + correctRejections <= total
    ensures var m := Assemble(total, targets, nonTargets, hits, misses, falseAlarms, correctRejections, sortedRts, z);
      0.0 <= m.accuracy <= 1.0 && m.accuracy * (total as real) == (hits + correctRejections) as real
  {
    RateTimesTrials(hits + correctRejections, total);
  }

  /** The median and the 10th/90th percentiles of the hit RTs are in order. */
  lemma SummarizePercentilesOrdered(ts: seq<NBackTrial>, z: real -> real)
    ensures var m := Summarize(ts, z);
      m.p10HitRtMs <= m.medianHitRtMs <= m.p90HitRtMs
  {
    if ts != [] {
      var rts := SortAscending(HitRts(ts));
      if rts != [] {
        SortAscendingSorted(HitRts(ts));
        PercentileMonotone(rts, 0.10, 0.5);
        PercentileMonotone(rts, 0.5, 0.90);
      }
    }
  }

  /**
   * For a consistently classified list the hit and false-alarm counts never
   * exceed the target and non-target counts, so the raw rates lie in [0, 1]
   * and the corrected rates strictly inside (0, 1).
   */
  lemma {:induction false} ConsistentRates(ts: seq<NBackTrial>)
    requires ConsistentlyClassified(ts)
    ensures Count(ts, IsHit) <= Count(ts, IsTarget)
    ensures Count(ts, IsFalseAlarm) <= Count(ts, IsNonTarget)
    ensures 0.0 < AdjustedRate(Count(ts, IsHit), Count(ts, IsTarget)) < 1.0
    ensures 0.0 < AdjustedRate(Count(ts, IsFalseAlarm), Count(ts, IsNonTarget)) < 1.0
  {
    CountMonotone(ts, IsHit, IsTarget);
    CountMonotone(ts, IsFalseAlarm, IsNonTarget);
  }

  /** `NBackMetrics::from_trials`: one pass of counters over the trials. */
  method FromTrials(ts: seq<NBackTrial>, z: real -> real) returns (m: NBackMetrics)
    ensures m == Summarize(ts, z)
  {
    if |ts| == 0 {
      return Empty;
    }
    var targets, nonTargets, hits, misses, falseAlarms, correctRejections := 0, 0, 0, 0, 0, 0;
    var hitRts: seq<real> := [];
    for i := 0 to |ts|
      invariant targets == Count(ts[..i], IsTarget)
      invariant nonTargets == Count(ts[..i], IsNonTarget)
      invariant hits == Count(ts[..i], IsHit)
      invariant misses == Count(ts[..i], IsMiss)
      invariant falseAlarms == Count(ts[..i], IsFalseAlarm)
      invariant correctRejections == Count(ts[..i], IsCorrectRejection)
      invariant hitRts == HitRts(ts[..i])
    {
      assert ts[..i + 1][..i] == ts[..i];
      var t := ts[i];
      if t.isTarget {
        targets := targets + 1;
      } else {
        nonTargets := nonTargets + 1;
      }
      match t.outcome {
        case Hit(rt) =>
          hits := hits + 1;
          hitRts := hitRts + [rt];
        case Miss =>
          misses := misses + 1;
        case FalseAlarm(_) =>
          falseAlarms := falseAlarms + 1;
        case CorrectRejection =>
          correctRejections := correctRejections + 1;
        case Pending =>
      }
    }
    assert ts[..|ts|] == ts;
    var sorted := hitRts;
    if |hitRts| > 0 {
      sorted := SortAscending(hitRts);
    }
    m := Assemble(|ts|, targets, nonTargets, hits, misses, falseAlarms, correctRejections, sorted, z);
  }
}
