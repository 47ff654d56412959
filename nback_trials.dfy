/**
 * The value types of the 2-back engine: run modes, trial records and their
 * outcomes. They sit in their own module because both the engine and the
 * metrics calculator use them. Timestamps are milliseconds on the
 * monotonic clock, as `real`s.
 */
module NBackTrials {
  import opened Wrappers

  datatype RunMode = Practice | Main

  datatype TrialResponse = TrialResponse(timestamp: real, rtMs: real)

  datatype TrialOutcome =
    | Pending
    | Hit(rtMs: real)
    | Miss
    | FalseAlarm(rtMs: real)
    | CorrectRejection

  datatype NBackTrial = NBackTrial(
    index: nat,
    letter: char,
    isTarget: bool,
    isLure: bool,
    presentedAt: Option<real>,
    response: Option<TrialResponse>,
    outcome: TrialOutcome)
  {
    /** A trial is completed once its outcome is no longer Pending. */
    predicate IsCompleted() {
      !outcome.Pending?
    }
  }

  /** A freshly generated trial: not yet shown, no response, outcome Pending. */
  function NewTrial(index: nat, letter: char, isTarget: bool, isLure: bool): (t: NBackTrial)
    ensures !t.IsCompleted() && t.presentedAt.None? && t.response.None?
    ensures t.index == index && t.letter == letter && t.isTarget == isTarget && t.isLure == isLure
  {
    NBackTrial(index, letter, isTarget, isLure, None, None, Pending)
  }

  /** `duration_ms`: the elapsed milliseconds from `start` to `end`, never negative. */
  function DurationMs(start: real, end: real): (d: real)
    ensures d >= 0.0
    ensures end >= start ==> d == end - start
    ensures end < start ==> d == 0.0
  {
    if end >= start then end - start else 0.0
  }
}
