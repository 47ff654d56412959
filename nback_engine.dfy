/**
 * The 2-back trial engine: a state machine over one run of trials
 * (Idle, Waiting, StimulusActive, Completed, Aborted), the letter-stream
 * generator with its fixed target quota, and the end-of-trial
 * classification into Hit, Miss, FalseAlarm and CorrectRejection.
 *
 * The seeded random number generator is an oracle: the shuffle of the
 * target candidates may produce any permutation, and a random letter is
 * any pool letter other than the one disallowed. Clock readings arrive as
 * `real` millisecond parameters.
 */
module NBackEngine {
  import opened Wrappers
  import opened NBackTrials
  import M = NBackMetrics
  import Stats

  /** The consonants the stimuli are drawn from. */
  const LetterPool: seq<char> :=
    ['B', 'C', 'D', 'F', 'G', 'H', 'J', 'K', 'M', 'P', 'Q', 'R', 'S', 'T', 'V', 'W', 'X', 'Y', 'Z']

  /** `run_id` is a `u64` that wraps on overflow. */
  const RunIdModulus: nat := 0x1_0000_0000_0000_0000

  datatype NBackConfig = NBackConfig(
    totalTrials: nat,
    practiceTrials: nat,
    targetRatio: real,
    stimulusMs: nat,
    interstimulusIntervalMs: nat,
    leadInMs: nat,
    responseWindowMs: nat,
    seed: nat)

  const DefaultConfig := NBackConfig(60, 12, 0.3, 500, 2500, 750, 3000, 1)

  datatype EngineState =
    | Idle
    | Waiting(mode: RunMode, trialIndex: nat)
    | StimulusActive(mode: RunMode, trialIndex: nat)
    | Completed(mode: RunMode)
    | Aborted
  {
    /** The states in which a trial is in progress. */
    predicate IsRunning() {
      Waiting? || StimulusActive?
    }
  }

  datatype ResponseKind = Hit | FalseAlarm

  datatype ScheduledStimulus = ScheduledStimulus(runId: nat, trialIndex: nat, waitMs: nat)
  datatype ScheduledAdvance = ScheduledAdvance(runId: nat, trialIndex: nat, waitMs: nat)
  datatype TrialSchedule = TrialSchedule(stimulus: ScheduledStimulus, advance: ScheduledAdvance)

  datatype AdvanceOutcome = Next(schedule: TrialSchedule) | Completed(mode: RunMode) | Ignored
  datatype ResponseOutcome = Recorded(kind: ResponseKind) | Ignored

  /** Number of trials of a run in the given mode. */
  function RunLength(config: NBackConfig, mode: RunMode): nat {
    match mode
    case Practice => config.practiceTrials
    case Main => config.totalTrials
  }

  /** `f32::round` for the non-negative products it is applied to: floor(x + 1/2). */
  function Round(x: real): int {
    (x + 0.5).Floor
  }

  /**
   * How many of the positions 2..length become targets: the rounded share
   * `ratio` of them, but at least one and at most all of them; none when
   * the run is too short to have a position two back.
   */
  function TargetQuota(length: nat, ratio: real): (q: nat)
    ensures length <= 2 ==> q == 0
    ensures length > 2 ==> 1 <= q <= length - 2
    ensures length > 2 && Round((length - 2) as real * ratio) < 1 ==> q == 1
    ensures length > 2 && Round((length - 2) as real * ratio) > length - 2 ==> q == length - 2
    ensures length > 2 && 1 <= Round((length - 2) as real * ratio) <= length - 2
            ==> q == Round((length - 2) as real * ratio)
  {
    var maxTargets := if length >= 2 then length - 2 else 0;
    var quota := Round(maxTargets as real * ratio);
    if maxTargets == 0 then 0
    else if quota <= 0 then 1
    else if quota > maxTargets then maxTargets
    else quota
  }

  lemma RoundMonotone(x: real, y: real)
    requires x <= y
    ensures Round(x) <= Round(y)
  {
  }

  /** A higher target ratio never yields fewer targets. */
  lemma TargetQuotaMonotone(length: nat, r1: real, r2: real)
    requires r1 <= r2
    ensures TargetQuota(length, r1) <= TargetQuota(length, r2)
  {
    if length > 2 {
      var n := (length - 2) as real;
      assert n * r1 <= n * r2 by { assert n * (r2 - r1) >= 0.0; }
      RoundMonotone(n * r1, n * r2);
      QuotaClampMonotone(length, Round(n * r1), Round(n * r2), TargetQuota(length, r1), TargetQuota(length, r2));
    }
  }

  /** Clamping into [1, length - 2] keeps the order of two rounded shares. */
  lemma QuotaClampMonotone(length: nat, a: int, b: int, qa: nat, qb: nat)
    requires length > 2 && a <= b
    requires a < 1 ==> qa == 1
    requires a > length - 2 ==> qa == length - 2
    requires 1 <= a <= length - 2 ==> qa == a
    requires 1 <= qb <= length - 2
    requires b < 1 ==> qb == 1
    requires b > length - 2 ==> qb == length - 2
    requires 1 <= b <= length - 2 ==> qb == b
    ensures qa <= qb
  {
  }

  /** The default main run (60 trials at ratio 0.3) has 17 targets; a 4-trial run at 0.5 has 1. */
  lemma TargetQuotaExamples()
    ensures TargetQuota(60, 0.3) == 17
    ensures TargetQuota(12, 0.3) == 3
    ensures TargetQuota(4, 0.5) == 1
    ensures TargetQuota(2, 0.9) == 0
    ensures TargetQuota(10, 0.0) == 1
  {
    assert Round(58.0 * 0.3) == 17 by { assert 58.0 * 0.3 + 0.5 == 17.9; }
    assert Round(10.0 * 0.3) == 3 by { assert 10.0 * 0.3 + 0.5 == 3.5; }
    assert Round(2.0 * 0.5) == 1 by { assert 2.0 * 0.5 + 0.5 == 1.5; }
  }

  predicate Distinct(s: seq<nat>) {
    forall p, q :: 0 <= p < q < |s| ==> s[p] != s[q]
  }

  /** A sequence without repeats has as many distinct elements as entries. */
  lemma {:induction false} DistinctSetSize(s: seq<nat>)
    requires Distinct(s)
    ensures |set x: nat | x in s| == |s|
  {
    if s == [] {
      assert (set x: nat | x in s) == {};
    } else {
      var init, last := s[..|s| - 1], s[|s| - 1];
      DistinctSetSize(init);
      var before := set x: nat | x in init;
      assert (set x: nat | x in s) == before + {last};
      assert last !in before by {
        forall k | 0 <= k < |init|
          ensures init[k] != last
        {
          assert init[k] == s[k];
        }
      }
      assert |before + {last}| == |before| + 1;
    }
  }

  /**
   * The generator's output shape: trial i has index i and a pool letter;
   * it is a target exactly when its letter repeats the one two back, and
   * a lure exactly when it repeats the one just before.
   */
  predicate WellFormed(ts: seq<NBackTrial>) {
    forall i :: 0 <= i < |ts| ==> FitsAt(ts, i)
  }

  predicate FitsAt(ts: seq<NBackTrial>, i: nat)
    requires i < |ts|
  {
    && ts[i].index == i
    && ts[i].letter in LetterPool
    && (ts[i].isTarget <==> i >= 2 && ts[i].letter == ts[i - 2].letter)
    && (ts[i].isLure <==> i >= 1 && ts[i].letter == ts[i - 1].letter)
  }

  /** A non-target at position 2 or later never repeats the letter two back. */
  lemma NonTargetsDifferTwoBack(ts: seq<NBackTrial>, i: nat)
    requires WellFormed(ts) && 2 <= i < |ts| && !ts[i].isTarget
    ensures ts[i].letter != ts[i - 2].letter
  {
    assert FitsAt(ts, i);
  }

  predicate Unpresented(t: NBackTrial) {
    t.presentedAt.None? && t.response.None? && t.outcome.Pending?
  }

  /**
   * What the engine keeps true of every trial: a Hit or Miss only on a
   * target, a FalseAlarm or CorrectRejection only on a non-target, and a
   * response exactly on Hit and FalseAlarm trials, after the onset, with
   * the outcome carrying the response's reaction time.
   */
  predicate Consistent(t: NBackTrial) {
    && ((t.outcome.Hit? || t.outcome.Miss?) ==> t.isTarget)
    && ((t.outcome.FalseAlarm? || t.outcome.CorrectRejection?) ==> !t.isTarget)
    && (t.response.Some? <==> t.outcome.Hit? || t.outcome.FalseAlarm?)
    && (t.response.Some? ==> t.presentedAt.Some? && t.response.value.rtMs >= 0.0)
    && (t.outcome.Hit? ==> t.outcome.rtMs == t.response.value.rtMs)
    && (t.outcome.FalseAlarm? ==> t.outcome.rtMs == t.response.value.rtMs)
  }

  /**
   * How far the run has got in each state: before the active trial every
   * trial is completed, after it none has been shown; a run in progress
   * points at an existing trial (or at 0 in an empty run); a completed
   * run has no Pending trial.
   */
  ghost predicate Progress(state: EngineState, ts: seq<NBackTrial>) {
    match state
    case Idle => ts == []
    case Waiting(_, k) =>
      && (k < |ts| || (ts == [] && k == 0))
      && (forall i :: 0 <= i < k && i < |ts| ==> ts[i].IsCompleted())
      && (forall i :: k <= i < |ts| ==> Unpresented(ts[i]))
    case StimulusActive(_, k) =>
      && k < |ts|
      && ts[k].presentedAt.Some?
      && (forall i :: 0 <= i < k ==> ts[i].IsCompleted())
      && (forall i :: k < i < |ts| ==> Unpresented(ts[i]))
    case Completed(_) => forall i :: 0 <= i < |ts| ==> ts[i].IsCompleted()
    case Aborted => true
  }

  ghost predicate AllConsistent(ts: seq<NBackTrial>) {
    forall i :: 0 <= i < |ts| ==> Consistent(ts[i])
  }

  /** Replacing one trial by one with the same index, letter and flags keeps the list well formed. */
  lemma ReplaceKeepsWellFormed(ts: seq<NBackTrial>, k: nat, t: NBackTrial)
    requires k < |ts| && WellFormed(ts)
    requires t.index == ts[k].index && t.letter == ts[k].letter && t.isTarget == ts[k].isTarget && t.isLure == ts[k].isLure
    ensures WellFormed(ts[k := t])
  {
    var ts' := ts[k := t];
    assert forall i :: 0 <= i < |ts'| ==>
      ts'[i].index == ts[i].index && ts'[i].letter == ts[i].letter
      && ts'[i].isTarget == ts[i].isTarget && ts'[i].isLure == ts[i].isLure;
    forall i | 0 <= i < |ts'|
      ensures FitsAt(ts', i)
    {
      assert FitsAt(ts, i);
      if i >= 1 {
        assert ts'[i - 1].letter == ts[i - 1].letter;
      }
      if i >= 2 {
        assert ts'[i - 2].letter == ts[i - 2].letter;
      }
    }
  }

  /** Replacing one trial by a consistent one keeps every trial consistent. */
  lemma ReplaceKeepsConsistent(ts: seq<NBackTrial>, k: nat, t: NBackTrial)
    requires k < |ts| && AllConsistent(ts) && Consistent(t)
    ensures AllConsistent(ts[k := t])
  {
  }

  /** Both invariants of the trial list survive replacing one trial by a consistent one of the same shape. */
  lemma ReplaceTrial(ts: seq<NBackTrial>, k: nat, t: NBackTrial)
    requires k < |ts| && WellFormed(ts) && AllConsistent(ts)
    requires Consistent(t)
    requires t.index == ts[k].index && t.letter == ts[k].letter && t.isTarget == ts[k].isTarget && t.isLure == ts[k].isLure
    ensures WellFormed(ts[k := t]) && AllConsistent(ts[k := t])
  {
    ReplaceKeepsWellFormed(ts, k, t);
    ReplaceKeepsConsistent(ts, k, t);
  }

  /** Showing the stimulus of the awaited trial makes it the active one. */
  lemma ProgressOnShow(mode: RunMode, ts: seq<NBackTrial>, k: nat, t: NBackTrial)
    requires Progress(Waiting(mode, k), ts) && k < |ts|
    requires t.presentedAt.Some?
    ensures Progress(StimulusActive(mode, k), ts[k := t])
  {
  }

  /** Recording a response changes only the active trial and keeps its onset. */
  lemma ProgressOnResponse(mode: RunMode, ts: seq<NBackTrial>, k: nat, t: NBackTrial)
    requires Progress(StimulusActive(mode, k), ts)
    requires t.presentedAt == ts[k].presentedAt
    ensures Progress(StimulusActive(mode, k), ts[k := t])
  {
  }

  /** The engine invariant over its state, run id and trial list. */
  ghost predicate Inv(state: EngineState, runId: nat, ts: seq<NBackTrial>) {
    runId < RunIdModulus && WellFormed(ts) && AllConsistent(ts) && Progress(state, ts)
  }

  /** The state `advance` moves to from a running state, and the trial list it leaves. */
  function AdvancedTrials(state: EngineState, ts: seq<NBackTrial>): seq<NBackTrial>
    requires state.IsRunning()
  {
    var k := state.trialIndex;
    if k < |ts| then ts[k := Close(ts[k])] else ts
  }

  function AdvancedState(state: EngineState, ts: seq<NBackTrial>): EngineState
    requires state.IsRunning()
  {
    if state.trialIndex + 1 >= |AdvancedTrials(state, ts)| then EngineState.Completed(state.mode)
    else Waiting(state.mode, state.trialIndex + 1)
  }

  /** Advancing keeps the engine invariant. */
  lemma AdvanceStep(state: EngineState, runId: nat, ts: seq<NBackTrial>)
    requires state.IsRunning() && Inv(state, runId, ts)
    ensures Inv(AdvancedState(state, ts), runId, AdvancedTrials(state, ts))
  {
    ProgressOnAdvance(state, ts);
    var k := state.trialIndex;
    if k < |ts| {
      ReplaceTrial(ts, k, Close(ts[k]));
    }
  }

  /** Closing the trial in progress moves on to the next trial, or completes the run after the last. */
  lemma ProgressOnAdvance(state: EngineState, ts: seq<NBackTrial>)
    requires state.IsRunning() && Progress(state, ts)
    ensures var k := state.trialIndex;
      var ts' := if k < |ts| then ts[k := Close(ts[k])] else ts;
      && (k + 1 >= |ts'| ==> Progress(EngineState.Completed(state.mode), ts'))
      && (k + 1 < |ts'| ==> Progress(Waiting(state.mode, k + 1), ts'))
  {
  }

  /** End of a trial without a response: Miss on a target, CorrectRejection otherwise. */
  function Close(t: NBackTrial): (c: NBackTrial)
    ensures c.IsCompleted()
    ensures t.IsCompleted() ==> c == t
    ensures !t.IsCompleted() ==> (c.outcome.Miss? <==> t.isTarget) && (c.outcome.CorrectRejection? <==> !t.isTarget)
    ensures Consistent(t) ==> Consistent(c)
    ensures c.index == t.index && c.letter == t.letter && c.isTarget == t.isTarget
    ensures c.presentedAt == t.presentedAt && c.response == t.response
  {
    if t.outcome.Pending? then t.(outcome := if t.isTarget then TrialOutcome.Miss else TrialOutcome.CorrectRejection)
    else t
  }

  /** `random_letter`: any pool letter other than the disallowed one. */
  method RandomLetter(disallow: Option<char>) returns (c: char)
    ensures c in LetterPool
    ensures disallow.Some? ==> c != disallow.value
  {
    var sample := if disallow == Some('B') then 'C' else 'B';
    assert sample in LetterPool && (disallow.Some? ==> sample != disallow.value);
    c :| c in LetterPool && (disallow.Some? ==> c != disallow.value);
  }

  lemma SwapPreserves(s: seq<nat>, i: nat, j: nat)
    requires i < |s| && j < |s|
    ensures multiset(s[i := s[j]][j := s[i]]) == multiset(s)
    ensures Distinct(s) ==> Distinct(s[i := s[j]][j := s[i]])
  {
  }

  /** `shuffle`: swaps each position with an arbitrary later one, so any permutation. */
  method Shuffle(a: array<nat>)
    modifies a
    ensures multiset(a[..]) == multiset(old(a[..]))
    ensures Distinct(old(a[..])) ==> Distinct(a[..])
  {
    var i := 0;
    while i < a.Length
      invariant 0 <= i <= a.Length
      invariant multiset(a[..]) == multiset(old(a[..]))
      invariant Distinct(old(a[..])) ==> Distinct(a[..])
    {
      var j :| i <= j < a.Length;
      SwapPreserves(a[..], i, j);
      ghost var swapped := a[..][i := a[j]][j := a[i]];
      a[i], a[j] := a[j], a[i];
      assert a[..] == swapped;
      i := i + 1;
    }
  }

  /** Counting targets over trials whose target flags mark exactly the chosen positions. */
  lemma {:induction false} TargetCountIsChosen(ts: seq<NBackTrial>, chosen: set<nat>)
    requires forall i :: 0 <= i < |ts| ==> (ts[i].isTarget <==> i in chosen)
    requires forall x :: x in chosen ==> x < |ts|
    ensures Stats.Count(ts, M.IsTarget) == |chosen|
  {
    if ts == [] {
      assert chosen == {};
    } else {
      var n := |ts| - 1;
      var rest := chosen - {n};
      TargetCountIsChosen(ts[..n], rest);
      if n in chosen {
        assert chosen == rest + {n};
      } else {
        assert rest == chosen;
      }
    }
  }

  predicate RepeatsTwoBack(ls: seq<char>, j: nat)
    requires j < |ls|
  {
    j >= 2 && ls[j] == ls[j - 2]
  }

  /** The trial built for position `j`: its flags read back off the letters. */
  function TrialAt(ls: seq<char>, j: nat): NBackTrial
    requires j < |ls|
  {
    NewTrial(j, ls[j], RepeatsTwoBack(ls, j), j >= 1 && ls[j] == ls[j - 1])
  }

  /**
   * The target positions: the candidates 2..length, shuffled, cut down to
   * the first `quota` (the sort before the membership test does not change
   * which positions are chosen).
   */
  method ChooseTargets(length: nat, quota: nat) returns (chosen: set<nat>)
    requires quota <= (if length >= 2 then length - 2 else 0)
    ensures forall x :: x in chosen ==> 2 <= x < length
    ensures |chosen| == quota
  {
    var maxTargets := if length >= 2 then length - 2 else 0;
    var candidates := new nat[maxTargets];
    for i := 0 to maxTargets
      invariant forall j :: 0 <= j < i ==> candidates[j] == j + 2
    {
      candidates[i] := i + 2;
    }
    ghost var before := candidates[..];
    assert Distinct(before);
    Shuffle(candidates);
    assert forall x :: x in candidates[..] ==> 2 <= x < length by {
      forall x | x in candidates[..]
        ensures 2 <= x < length
      {
        assert x in multiset(before);
      }
    }
    var prefix := candidates[..quota];
    chosen := set x: nat | x in prefix;
    assert forall x :: x in prefix ==> x in candidates[..];
    assert Distinct(prefix);
    DistinctSetSize(prefix);
  }

  /** The first loop of the letter stream: random letters at positions 0 and 1, blanks after them. */
  method SeedLetters(length: nat) returns (letters: array<char>)
    ensures fresh(letters) && letters.Length == length
    ensures forall j :: 0 <= j < length && j < 2 ==> letters[j] in LetterPool
  {
    letters := new char[length];
    for i := 0 to length
      invariant forall j :: 0 <= j < i && j < 2 ==> letters[j] in LetterPool
    {
      if i < 2 {
        letters[i] := RandomLetter(None);
      } else {
        letters[i] := ' ';
      }
    }
  }

  /**
   * The letter stream: two random letters, then each later position either
   * repeats the letter two back (a chosen target position) or gets a random
   * letter different from it.
   */
  method FillLetters(length: nat, chosen: set<nat>) returns (ls: seq<char>)
    requires forall x :: x in chosen ==> 2 <= x < length
    ensures |ls| == length
    ensures forall j :: 0 <= j < length ==> ls[j] in LetterPool
    ensures forall j :: 0 <= j < length ==> (j in chosen <==> RepeatsTwoBack(ls, j))
  {
    var letters := SeedLetters(length);
    var idx := 2;
    while idx < length
      invariant 2 <= idx <= if length >= 2 then length else 2
      invariant forall j :: 0 <= j < idx && j < length ==> letters[j] in LetterPool
      invariant forall j :: 2 <= j < idx && j < length ==> (j in chosen <==> letters[j] == letters[j - 2])
    {
      if idx in chosen {
        letters[idx] := letters[idx - 2];
      } else {
        letters[idx] := RandomLetter(Some(letters[idx - 2]));
      }
      idx := idx + 1;
    }
    ls := letters[..];
    assert forall j :: 0 <= j < length ==> ls[j] == letters[j];
  }

  /** One unpresented trial per letter, flags read back off the letters. */
  method BuildTrials(ls: seq<char>) returns (ts: seq<NBackTrial>)
    ensures |ts| == |ls|
    ensures forall j :: 0 <= j < |ls| ==> ts[j] == TrialAt(ls, j)
  {
    ts := [];
    for i := 0 to |ls|
      invariant |ts| == i
      invariant forall j :: 0 <= j < i ==> ts[j] == TrialAt(ls, j)
    {
      ts := ts + [TrialAt(ls, i)];
    }
  }

  /** Trials built from pool letters are well formed, unpresented, and their targets are the repeats two back. */
  lemma TrialsFromLetters(ls: seq<char>, ts: seq<NBackTrial>, chosen: set<nat>)
    requires |ts| == |ls|
    requires forall j :: 0 <= j < |ls| ==> ts[j] == TrialAt(ls, j)
    requires forall j :: 0 <= j < |ls| ==> ls[j] in LetterPool
    requires forall j :: 0 <= j < |ls| ==> (j in chosen <==> RepeatsTwoBack(ls, j))
    requires forall x :: x in chosen ==> x < |ls|
    ensures WellFormed(ts)
    ensures forall i :: 0 <= i < |ts| ==> Unpresented(ts[i])
    ensures Stats.Count(ts, M.IsTarget) == |chosen|
  {
    forall i | 0 <= i < |ts|
      ensures FitsAt(ts, i) && Unpresented(ts[i]) && (ts[i].isTarget <==> i in chosen)
    {
      assert ts[i] == TrialAt(ls, i);
      if i >= 1 {
        assert ts[i - 1] == TrialAt(ls, i - 1);
      }
      if i >= 2 {
        assert ts[i - 2] == TrialAt(ls, i - 2);
      }
    }
    TargetCountIsChosen(ts, chosen);
  }

  /**
   * `generate_trials`: a run of the mode's length whose letters come from
   * the pool, with exactly `TargetQuota` targets, every trial unpresented.
   */
  method GenerateTrials(config: NBackConfig, mode: RunMode) returns (ts: seq<NBackTrial>)
    ensures |ts| == RunLength(config, mode)
    ensures WellFormed(ts)
    ensures forall i :: 0 <= i < |ts| ==> Unpresented(ts[i])
    ensures Stats.Count(ts, M.IsTarget) == TargetQuota(|ts|, config.targetRatio)
  {
    var length := RunLength(config, mode);
    if length == 0 {
      return [];
    }
    var quota := TargetQuota(length, config.targetRatio);
    var chosen := ChooseTargets(length, quota);
    var ls := FillLetters(length, chosen);
    ts := BuildTrials(ls);
    TrialsFromLetters(ls, ts, chosen);
  }

  class Engine {
    const config: NBackConfig
    /** The inverse normal CDF used when a finished run is scored. */
    const z: real -> real
    var state: EngineState
    var runId: nat
    var trials: seq<NBackTrial>
    var lastPracticeMetrics: Option<M.NBackMetrics>
    var lastMainMetrics: Option<M.NBackMetrics>

    ghost predicate Valid()
      reads this
    {
      Inv(state, runId, trials)
    }

    /** `NBackEngine::new`: idle, run 0, no trials and no stored metrics. */
    constructor(config: NBackConfig, z: real -> real)
      ensures Valid()
      ensures this.config == config && this.z == z
      ensures state == Idle && runId == 0 && trials == []
      ensures lastPracticeMetrics == None && lastMainMetrics == None
    {
      this.config := config;
      this.z := z;
      state := Idle;
      runId := 0;
      trials := [];
      lastPracticeMetrics := None;
      lastMainMetrics := None;
    }

    /**
     * `schedule_current`: both timers carry the current run id; the
     * stimulus waits the lead-in before trial 0 and the inter-stimulus
     * interval before later trials; the advance waits the response window.
     */
    function ScheduleCurrent(trialIndex: nat): (s: TrialSchedule)
      reads this
      ensures s.stimulus.runId == runId && s.advance.runId == runId
      ensures s.stimulus.trialIndex == trialIndex && s.advance.trialIndex == trialIndex
      ensures s.stimulus.waitMs == (if trialIndex == 0 then config.leadInMs else config.interstimulusIntervalMs)
      ensures s.advance.waitMs == config.responseWindowMs
    {
      TrialSchedule(
        ScheduledStimulus(runId, trialIndex, if trialIndex == 0 then config.leadInMs else config.interstimulusIntervalMs),
        ScheduledAdvance(runId, trialIndex, config.responseWindowMs))
    }

    /**
     * `start`: refused while a run is in progress; otherwise the run id
     * advances (wrapping), a fresh trial list of the mode's length is
     * generated and the engine waits for trial 0.
     */
    method Start(mode: RunMode) returns (r: Option<TrialSchedule>)
      requires Valid()
      modifies this
      ensures Valid()
      ensures old(state).IsRunning() ==>
        r == None && state == old(state) && runId == old(runId) && trials == old(trials)
      ensures !old(state).IsRunning() ==>
        && runId == (old(runId) + 1) % RunIdModulus
        && state == Waiting(mode, 0)
        && |trials| == RunLength(config, mode)
        && (forall i :: 0 <= i < |trials| ==> Unpresented(trials[i]))
        && Stats.Count(trials, M.IsTarget) == TargetQuota(|trials|, config.targetRatio)
        && r == Some(ScheduleCurrent(0))
      ensures lastPracticeMetrics == old(lastPracticeMetrics) && lastMainMetrics == old(lastMainMetrics)
    {
      if state.IsRunning() {
        return None;
      }
      runId := (runId + 1) % RunIdModulus;
      trials := GenerateTrials(config, mode);
      state := Waiting(mode, 0);
      r := Some(ScheduleCurrent(0));
    }

    /** `abort`: from any state, the engine becomes Aborted; nothing else changes. */
    method Abort()
      requires Valid()
      modifies this
      ensures Valid()
      ensures state == Aborted
      ensures runId == old(runId) && trials == old(trials)
      ensures lastPracticeMetrics == old(lastPracticeMetrics) && lastMainMetrics == old(lastMainMetrics)
    {
      state := Aborted;
    }

    /**
     * `mark_stimulus_on`: only while waiting for exactly this trial, and
     * only if it exists, the onset is recorded and the stimulus becomes
     * active; otherwise nothing changes.
     */
    method MarkStimulusOn(trialIndex: nat, timestamp: real) returns (ok: bool)
      requires Valid()
      modifies this
      ensures Valid()
      ensures ok <==> old(state).Waiting? && old(state).trialIndex == trialIndex && trialIndex < |old(trials)|
      ensures ok ==>
        && state == StimulusActive(old(state).mode, trialIndex)
        && trials == old(trials)[trialIndex := old(trials)[trialIndex].(presentedAt := Some(timestamp))]
      ensures !ok ==> state == old(state) && trials == old(trials)
      ensures runId == old(runId)
      ensures lastPracticeMetrics == old(lastPracticeMetrics) && lastMainMetrics == old(lastMainMetrics)
    {
      ok := false;
      if state.Waiting? && state.trialIndex == trialIndex && trialIndex < |trials| {
        var t := trials[trialIndex].(presentedAt := Some(timestamp));
        ReplaceTrial(trials, trialIndex, t);
        ProgressOnShow(state.mode, trials, trialIndex, t);
        trials := trials[trialIndex := t];
        state := StimulusActive(state.mode, trialIndex);
        ok := true;
      }
    }

    /**
     * `register_response`: while a stimulus is active, the first response
     * to a shown trial is recorded with its reaction time from the onset,
     * and the trial becomes a Hit if it is a target and a FalseAlarm
     * otherwise. Any other response is ignored and changes nothing.
     */
    method RegisterResponse(timestamp: real) returns (r: ResponseOutcome)
      requires Valid()
      modifies this
      ensures Valid()
      ensures state == old(state) && runId == old(runId)
      ensures lastPracticeMetrics == old(lastPracticeMetrics) && lastMainMetrics == old(lastMainMetrics)
      ensures if old(state).StimulusActive? && old(state).trialIndex < |old(trials)|
                 && old(trials)[old(state).trialIndex].response.None?
                 && old(trials)[old(state).trialIndex].presentedAt.Some? then
          var k := old(state).trialIndex;
          var t := old(trials)[k];
          var rt := DurationMs(t.presentedAt.value, timestamp);
          && trials == old(trials)[k := t.(response := Some(TrialResponse(timestamp, rt)),
                                         outcome := if t.isTarget then TrialOutcome.Hit(rt) else TrialOutcome.FalseAlarm(rt))]
          && r == Recorded(if t.isTarget then ResponseKind.Hit else ResponseKind.FalseAlarm)
        else
          r == ResponseOutcome.Ignored && trials == old(trials)
    {
      if !state.StimulusActive? || state.trialIndex >= |trials| {
        return ResponseOutcome.Ignored;
      }
      var k := state.trialIndex;
      var t := trials[k];
      if t.response.Some? || t.presentedAt.None? {
        return ResponseOutcome.Ignored;
      }
      var rt := DurationMs(t.presentedAt.value, timestamp);
      var answered := t.(response := Some(TrialResponse(timestamp, rt)),
                         outcome := if t.isTarget then TrialOutcome.Hit(rt) else TrialOutcome.FalseAlarm(rt));
      ReplaceTrial(trials, k, answered);
      ProgressOnResponse(state.mode, trials, k, answered);
      trials := trials[k := answered];
      r := Recorded(if t.isTarget then ResponseKind.Hit else ResponseKind.FalseAlarm);
    }

    /** The end of `advance` after the last trial: the run's metrics go into the slot of its mode. */
    method FinishRun(mode: RunMode)
      modifies this
      ensures state == old(state) && runId == old(runId) && trials == old(trials)
      ensures mode == Practice ==>
        lastPracticeMetrics == Some(M.Summarize(trials, z)) && lastMainMetrics == old(lastMainMetrics)
      ensures mode == Main ==>
        lastMainMetrics == Some(M.Summarize(trials, z)) && lastPracticeMetrics == old(lastPracticeMetrics)
    {
      var metrics := M.FromTrials(trials, z);
      match mode {
        case Practice => lastPracticeMetrics := Some(metrics);
        case Main => lastMainMetrics := Some(metrics);
      }
    }

    /**
     * `advance`: only for the trial in progress. A trial still Pending is
     * closed as a Miss or a CorrectRejection. After the last trial the run
     * is Completed and its metrics are stored in the slot of its mode;
     * otherwise the engine waits for the next trial.
     */
    method Advance(trialIndex: nat) returns (r: AdvanceOutcome)
      requires Valid()
      modifies this
      ensures Valid()
      ensures runId == old(runId)
      ensures !(old(state).IsRunning() && old(state).trialIndex == trialIndex) ==>
        && r == AdvanceOutcome.Ignored && state == old(state) && trials == old(trials)
        && lastPracticeMetrics == old(lastPracticeMetrics) && lastMainMetrics == old(lastMainMetrics)
      ensures old(state).IsRunning() && old(state).trialIndex == trialIndex ==>
        var mode := old(state).mode;
        && trials == (if trialIndex < |old(trials)| then old(trials)[trialIndex := Close(old(trials)[trialIndex])]
                      else old(trials))
        && (trialIndex + 1 >= |trials| ==>
              && state == EngineState.Completed(mode)
              && r == AdvanceOutcome.Completed(mode)
              && (mode == Practice ==>
                    lastPracticeMetrics == Some(M.Summarize(trials, z)) && lastMainMetrics == old(lastMainMetrics))
              && (mode == Main ==>
                    lastMainMetrics == Some(M.Summarize(trials, z)) && lastPracticeMetrics == old(lastPracticeMetrics)))
        && (trialIndex + 1 < |trials| ==>
              && state == Waiting(mode, trialIndex + 1)
              && r == Next(ScheduleCurrent(trialIndex + 1))
              && lastPracticeMetrics == old(lastPracticeMetrics) && lastMainMetrics == old(lastMainMetrics))
    {
      if !(state.IsRunning() && state.trialIndex == trialIndex) {
        return AdvanceOutcome.Ignored;
      }
      var mode := state.mode;
      AdvanceStep(state, runId, trials);
      var closed := AdvancedTrials(state, trials);
      var next := AdvancedState(state, trials);
      trials := closed;
      state := next;
      if next.Completed? {
        FinishRun(mode);
        r := AdvanceOutcome.Completed(mode);
      } else {
        r := Next(ScheduleCurrent(trialIndex + 1));
      }
    }
  }

  /** One trial of the scenario: the awaited trial is shown and then advanced past without a response. */
  method ShowAndAdvance(engine: Engine, k: nat, t: real) returns (outcome: AdvanceOutcome)
    requires engine.Valid() && engine.state == Waiting(Practice, k) && k < |engine.trials|
    modifies engine
    ensures engine.Valid() && |engine.trials| == old(|engine.trials|)
    ensures k + 1 < |engine.trials| ==> engine.state == Waiting(Practice, k + 1)
    ensures k + 1 >= |engine.trials| ==>
      outcome == AdvanceOutcome.Completed(Practice)
      && engine.lastPracticeMetrics == Some(M.Summarize(engine.trials, engine.z))
  {
    var shown := engine.MarkStimulusOn(k, t);
    outcome := engine.Advance(k);
  }

  /**
   * The completion scenario of the engine's own test: a 4-trial practice
   * run advanced trial by trial without responses completes, and the
   * practice slot then holds metrics over all 4 trials.
   */
  method PracticeRunCompletes(z: real -> real, t0: real, t1: real, t2: real, t3: real)
    returns (outcome: AdvanceOutcome, metrics: Option<M.NBackMetrics>)
    ensures outcome == AdvanceOutcome.Completed(Practice)
    ensures metrics.Some? && metrics.value.totalTrials == 4
  {
    var engine := new Engine(NBackConfig(4, 4, 0.5, 300, 200, 10, 500, 9), z);
    var schedule := engine.Start(Practice);
    outcome := ShowAndAdvance(engine, 0, t0);
    outcome := ShowAndAdvance(engine, 1, t1);
    outcome := ShowAndAdvance(engine, 2, t2);
    outcome := ShowAndAdvance(engine, 3, t3);
    metrics := engine.lastPracticeMetrics;
    M.SummarizeCounts(engine.trials, z);
  }
}
