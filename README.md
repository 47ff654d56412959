# Looplace core in Dafny

Looplace is a small cognitive self-check app with two tasks:

- the **2-back** working-memory task. Letters are shown one at a time, and the player responds when a letter repeats the one shown two steps earlier;
- the **psychomotor vigilance task** (PVT), a reaction-time task.

This project models the logic of both tasks and the code around them that has behaviour one can state:

- the 2-back **trial engine**. It is a state machine (Idle, Waiting, StimulusActive, Completed, Aborted) with a run counter. It generates the letter stream to a fixed target quota and classifies each trial at its end as Hit, FalseAlarm, Miss or CorrectRejection;
- the **scoring** of a finished run for both tasks:
  - outcome counts, PVT lapse bands, raw and corrected rates;
  - the signal-detection indices;
  - the rank-interpolated percentile;
  - the least-squares time-on-task slope;
- the **results export**:
  - the CSV escaping and the fixed 21-column CSV document;
  - the XML text escaping, `ellipsize` and the SVG identifier generator;
  - the snapshot card layout and the plot-height fitting;
  - the average helper, and the window of the last eight lapse bars;
- the **result labels**: time stamp, QC summary, task name and device line;
- the **readiness** cooldown between runs, with its elapsed-time and interval phrases;
- the two **translation-file checks**. One parses Fluent message identifiers and scans the sources for `t!("…")` literals. The other extracts keys, finds duplicate keys and finds the keys each locale lacks;
- the **UTC-offset label** and the platform names.

Each module follows one source file:

| module | source file |
|---|---|
| `NBackTrials` | the 2-back trial record |
| `NBackEngine` | ui/src/tasks/nback/engine.rs |
| `NBackMetrics` | ui/src/tasks/nback/metrics.rs |
| `PvtMetrics` | ui/src/tasks/pvt/metrics.rs |
| `Stats` | the `mean`, `std_dev` and `percentile` helpers that both metrics files contain |
| `ExportCsv`, `ExportText`, `ExportLayout`, `ExportOverview` | ui/src/results/export.rs |
| `ResultsUtils` | ui/src/results/utils.rs |
| `Readiness` | ui/src/core/readiness.rs |
| `Platform` | ui/src/core/platform.rs |
| `I18nCompleteness` | ui/src/tests/i18n_completeness.rs |
| `I18nMissingKeys` | ui/tests/i18n_missing_keys.rs |
| `Records` | the stored summary record, holding the fields the label, readiness and export code read |
| `Text`, `Wrappers` | Rust's string and option helpers: `trim`, `find`, `lines`, `join`, decimal rendering, `Option` |

**How the source's forms are kept.**

- `NBackEngine.Engine` is a class. Its fields are the engine's state, run id, trial list and two metrics slots, and each engine method has a `modifies` clause. Each state-changing method states its whole new state. The engine invariant `Inv` holds after each one: well-formed trials, trials consistent with their outcomes, and progress through the run.
- The loops of the source are methods with loop invariants, each proved equal to a specification function. These are:
  - the letter-stream generator;
  - the metrics passes;
  - the CSV writer;
  - the bar collection;
  - the Fluent and key parsers;
  - the `t!("` scanner;
  - the per-locale loops.
  The properties are then proved about those functions.
- The shuffle works in place on an `array`.
- The two objects the export mutates are classes with ghost histories: `ExportText.IdGen` and `ExportLayout.Layout`.

**What is a parameter.**

- Randomness is an oracle: `Shuffle` may produce any permutation, and `RandomLetter` returns some pool letter other than the disallowed one.
- The inverse normal CDF is a parameter `z`.
- The current time is a parameter. Readiness counts it in whole seconds; the engine takes reaction-time stamps as `real` milliseconds.
- The text of an `f64` is a parameter `show`.
- What `serde` and RFC 3339 parsing yield is stored in the record as `Option` fields.

`ui/src/tasks/pvt/metrics.rs` imports `PvtTrial` from `ui/src/tasks/pvt/engine.rs`, which does not define it: the engine there is a placeholder. `PvtMetrics.PvtTrial` therefore holds only what the metrics code reads: an outcome (Pending, Reaction with a reaction time, Lapse or FalseStart) and an optional onset time.

## Model

| member | source | states |
|---|---|---|
| NBackTrials.NewTrial | ui/src/tasks/nback/engine.rs:80-90 | A new trial keeps its index, letter and flags, has no onset and no response, and is not completed (Pending). |
| NBackTrials.DurationMs | ui/src/core/timing.rs:26-37 | The reaction time is `end - start` when end is not earlier, and 0 otherwise; it is never negative. |
| NBackEngine.TargetQuota | ui/src/tasks/nback/engine.rs:335-349 | The quota is 0 for runs of at most 2 trials. Otherwise it is round((length − 2)·ratio) clamped into [1, length − 2]: 1 when the rounded share is below 1, length − 2 when it is above, and the share itself in between. |
| NBackEngine.TargetQuotaMonotone | ui/src/tasks/nback/engine.rs:337-348 | A higher target ratio never gives fewer targets for the same run length. |
| NBackEngine.TargetQuotaExamples | ui/src/tasks/nback/engine.rs:44-56 | Concrete quotas: the default 60-trial main run at ratio 0.3 gets 17 targets, the 12-trial practice run 3, a 4-trial run at 0.5 gets 1, a 2-trial run 0, and ratio 0 still gets 1. |
| NBackEngine.DistinctSetSize | ui/src/tasks/nback/engine.rs:351-354 | A candidate list without repeats has as many distinct positions as entries, so truncating the shuffle to the quota chooses `quota` positions. |
| NBackEngine.NonTargetsDifferTwoBack | ui/src/tasks/nback/engine.rs:410-417 | In well-formed trials, a non-target at position 2 or later never has the letter two back. |
| NBackEngine.ReplaceKeepsWellFormed | ui/src/tasks/nback/engine.rs:213-216 | Replacing one trial by one of the same index, letter and flags keeps index, pool letter, target and lure flags right everywhere. |
| NBackEngine.ReplaceTrial | ui/src/tasks/nback/engine.rs:234-243 | Replacing one trial by a consistent one of the same shape keeps the list well formed and every outcome consistent with its target flag and response. |
| NBackEngine.ProgressOnShow | ui/src/tasks/nback/engine.rs:213-216 | Showing the awaited trial (setting its onset) makes it the active trial, with earlier trials completed and later ones unshown. |
| NBackEngine.ProgressOnResponse | ui/src/tasks/nback/engine.rs:234-243 | Recording a response on the active trial keeps the run's progress. |
| NBackEngine.AdvanceStep | ui/src/tasks/nback/engine.rs:265-291 | Closing the active trial and moving on keeps the whole engine invariant (run id in range, well formed, consistent, progress). |
| NBackEngine.ProgressOnAdvance | ui/src/tasks/nback/engine.rs:265-291 | After the last trial the run is Completed with every trial completed. Otherwise the engine waits for trial k + 1, with trials up to k completed. |
| NBackEngine.Close | ui/src/tasks/nback/engine.rs:265-272 | A Pending trial becomes Miss exactly when it is a target and CorrectRejection exactly when not. A completed trial is unchanged. Nothing but the outcome changes. |
| NBackEngine.RandomLetter | ui/src/tasks/nback/engine.rs:388-396 | The letter is from the pool and differs from the disallowed letter, if there is one. |
| NBackEngine.Shuffle | ui/src/tasks/nback/engine.rs:352 | The array afterwards is a permutation of the array before, and a list without repeats stays without repeats. |
| NBackEngine.TargetCountIsChosen | ui/src/tasks/nback/engine.rs:356-371 | When the target flags mark exactly the chosen positions, the number of target trials is the number of chosen positions. |
| NBackEngine.ChooseTargets | ui/src/tasks/nback/engine.rs:351-354 | The chosen set has exactly `quota` positions, all in [2, length). |
| NBackEngine.SeedLetters | ui/src/tasks/nback/engine.rs:327-333 | A fresh array of the run's length whose first two letters come from the pool. |
| NBackEngine.FillLetters | ui/src/tasks/nback/engine.rs:356-364 | Every letter is from the pool, and a position repeats the letter two back exactly when it was chosen. |
| NBackEngine.BuildTrials | ui/src/tasks/nback/engine.rs:366-371 | One trial per letter. Trial j has index j, letter j, target flag "j ≥ 2 and the same letter two back", and lure flag "j ≥ 1 and the same letter one back". |
| NBackEngine.TrialsFromLetters | ui/src/tasks/nback/engine.rs:366-371 | Trials built from the filled letters are well formed and unshown, and their target count is the number of chosen positions. |
| NBackEngine.GenerateTrials | ui/src/tasks/nback/engine.rs:313-374 | The trial list has the mode's length and is well formed, with every trial Pending and unshown. It holds exactly `TargetQuota` targets. |
| NBackEngine.Engine.constructor | ui/src/tasks/nback/engine.rs:162-171 | A new engine is Idle, with run id 0, no trials and both metrics slots empty. |
| NBackEngine.Engine.ScheduleCurrent | ui/src/tasks/nback/engine.rs:294-311 | Both scheduled events carry the current run id and the trial index. The stimulus waits the lead-in before trial 0 and the interstimulus interval before later trials; the advance waits the response window. |
| NBackEngine.Engine.Start | ui/src/tasks/nback/engine.rs:185-201 | While Waiting or StimulusActive: None, and nothing changes. Otherwise: the run id goes up by one modulo 2^64, and a fresh generated list of the mode's length is installed. The state becomes Waiting for trial 0, the schedule is that of trial 0, and the metrics slots are kept. |
| NBackEngine.Engine.Abort | ui/src/tasks/nback/engine.rs:203-205 | From any state the engine is Aborted; run id, trials and metrics are unchanged. |
| NBackEngine.Engine.MarkStimulusOn | ui/src/tasks/nback/engine.rs:207-223 | It succeeds exactly in Waiting for trial k with trial k present; it then records the onset on trial k alone and moves to StimulusActive for k. Otherwise it answers false and nothing changes. |
| NBackEngine.Engine.RegisterResponse | ui/src/tasks/nback/engine.rs:225-250 | It acts only on the active trial, with an onset and no earlier response. It records the reaction time, and the outcome becomes Hit on a target and FalseAlarm otherwise. In every other case it is Ignored and the trials are unchanged. |
| NBackEngine.Engine.FinishRun | ui/src/tasks/nback/engine.rs:279-283 | The metrics of the trials go into the slot of the run's mode, and the other slot is unchanged. |
| NBackEngine.Engine.Advance | ui/src/tasks/nback/engine.rs:252-292 | It is Ignored and changes nothing unless a trial is in progress at that index. Otherwise it closes that trial, and either completes the run (metrics in that mode's slot only) or waits for the next trial and returns its schedule. The invariant keeps the active index inside the trial list. |
| NBackEngine.ShowAndAdvance | ui/src/tasks/nback/engine.rs:443-450 | Showing the awaited practice trial and advancing without a response moves to the next trial, or completes the practice run after the last one. |
| NBackEngine.PracticeRunCompletes | ui/src/tasks/nback/engine.rs:421-459 | The unit-test scenario: a 4-trial practice run shown and advanced without responses completes, and its stored metrics count 4 trials. |
| Stats.Mean | ui/src/tasks/nback/metrics.rs:133-139 | The mean of no values is 0. |
| Stats.MeanTimesCount | ui/src/tasks/nback/metrics.rs:137 | For values, the mean times their count is their sum. |
| Stats.Variance | ui/src/tasks/nback/metrics.rs:141-155 | The sample variance is 0 for fewer than two values and never negative. |
| Stats.VarianceOfConstant | ui/src/tasks/nback/metrics.rs:141-155 | Identical values (around their own value) have variance 0. |
| Stats.Percentile | ui/src/tasks/nback/metrics.rs:157-177 | It is 0 for no values and the sole value for one. Otherwise it interpolates at rank clamp(pct, 0, 1)·(n − 1). |
| Stats.PercentileBetweenNeighbours | ui/src/tasks/nback/metrics.rs:166-176 | For sorted input the result lies between the values at the floor and the ceiling of the rank. |
| Stats.PercentileMonotone | ui/src/tasks/nback/metrics.rs:157-177 | For sorted input a larger fraction never gives a smaller percentile, so p10 ≤ median ≤ p90. |
| Stats.PercentileExample | ui/src/tasks/nback/metrics.rs:157-177 | For [300, 400, 500, 600]: the median is 450, p10 is 330 and p90 is 570. |
| Stats.SortAscending | ui/src/tasks/pvt/metrics.rs:68-69 | The sorted copy is a permutation of the values. |
| Stats.SortAscendingSorted | ui/src/tasks/pvt/metrics.rs:68-69 | The sorted copy is in ascending order. |
| NBackMetrics.HitRts | ui/src/tasks/nback/metrics.rs:56-59 | There is one hit reaction time per Hit trial. |
| NBackMetrics.CountMonotone | ui/src/tasks/nback/metrics.rs:48-71 | A kind of trial implied by another is counted no more often. |
| NBackMetrics.TargetPartition | ui/src/tasks/nback/metrics.rs:48-53 | Target trials plus non-target trials is the number of trials. |
| NBackMetrics.OutcomePartition | ui/src/tasks/nback/metrics.rs:55-71 | Hits, misses, false alarms and correct rejections together count exactly the non-Pending trials. |
| NBackMetrics.Rate | ui/src/tasks/nback/metrics.rs:90-99 | A raw rate is 0 with no trials of its kind, and lies in [0, 1] when the count does not exceed the trials. |
| NBackMetrics.RateTimesTrials | ui/src/tasks/nback/metrics.rs:90-99 | With trials of its kind, the rate times the trials is the count. |
| NBackMetrics.AdjustedRate | ui/src/tasks/nback/metrics.rs:185-190 | The log-linear corrected rate lies strictly between 0 and 1 whenever the count does not exceed max(trials, 1). |
| NBackMetrics.AdjustedRateMonotone | ui/src/tasks/nback/metrics.rs:185-190 | More hits (or false alarms) never give a lower corrected rate. |
| NBackMetrics.ClampRate | ui/src/tasks/nback/metrics.rs:192-193 | The clamped rate lies in [1e-6, 1 − 1e-6] and is unchanged inside that range. |
| NBackMetrics.SignalDetection | ui/src/tasks/nback/metrics.rs:179-198 | d′ and criterion together give back both z-scores: z_hit = d′/2 − c and z_fa = −d′/2 − c, each taken at the clamped log-linear rate. |
| NBackMetrics.DPrimeMonotone | ui/src/tasks/nback/metrics.rs:179-198 | For an increasing z, more hits and fewer false alarms never lower d′. |
| NBackMetrics.Summarize | ui/src/tasks/nback/metrics.rs:35-38 | An empty trial list gives the all-zero default record. |
| NBackMetrics.SummarizeCounts | ui/src/tasks/nback/metrics.rs:40-73 | The record's counters are exactly:<br>• the number of trials, targets and non-targets;<br>• the count of each outcome;<br>• response_count = hits + false alarms.<br>The outcomes add up to the non-Pending trials, and without hits the reaction-time statistics are 0. |
| NBackMetrics.SummarizeSingleHitMedian | ui/src/tasks/nback/metrics.rs:81-88 | When a single hit took rt, the median hit time is rt. |
| NBackMetrics.UnitTestHitRts | ui/src/tasks/nback/metrics.rs:269-312 | The only hit reaction time in the unit-test session is 480 ms. |
| NBackMetrics.MetricsExample | ui/src/tasks/nback/metrics.rs:269-321 | The unit-test session (CR, FA 420 ms, hit 480 ms, miss) gives 4 trials, 2 targets, one of each outcome and a median hit time of 480 ms. |
| NBackMetrics.CountOfFour | ui/src/tasks/nback/metrics.rs:40-73 | Counting over four trials adds one for each trial that matches. |
| NBackMetrics.AssembleAccuracy | ui/src/tasks/nback/metrics.rs:103-107 | Accuracy is (hits + correct rejections) / total, and lies in [0, 1]. |
| NBackMetrics.Assemble | ui/src/tasks/nback/metrics.rs:90-130 | The counters pass through, and response_count is hits + false alarms. hit_rate and false_alarm_rate are the raw `Rate`s of hits per target and false alarms per non-target. d′ and the criterion are `SignalDetection` of the counts. With no hit RTs all RT statistics are 0; with one, the median, p10 and p90 are that RT. |
| NBackMetrics.SummarizePercentilesOrdered | ui/src/tasks/nback/metrics.rs:81-88 | The hit reaction-time percentiles satisfy p10 ≤ median ≤ p90. |
| NBackMetrics.ConsistentRates | ui/src/tasks/nback/metrics.rs:185-190 | For engine-classified trials, hits never exceed targets and false alarms never exceed non-targets. Both corrected rates lie strictly in (0, 1). |
| NBackMetrics.FromTrials | ui/src/tasks/nback/metrics.rs:34-130 | The one-pass counter loop and the sorted hit reaction times give exactly the record `Summarize` describes. |
| Stats.Count | ui/src/tasks/pvt/metrics.rs:27 | A count of trials of one kind never exceeds the number of trials. The n-back counters (ui/src/tasks/nback/metrics.rs:48-71) are the same count over n-back trials. |
| PvtMetrics.MsToMinutes | ui/src/core/timing.rs:65-67 | The minutes times 60000 are the milliseconds. |
| PvtMetrics.ReactionTimes | ui/src/tasks/pvt/metrics.rs:36-37 | There is one reaction time per Reaction trial. |
| PvtMetrics.ReactionOffsets | ui/src/tasks/pvt/metrics.rs:38-42 | There is one onset minute per Reaction trial, paired with the reaction times. |
| PvtMetrics.SlopeMinutes | ui/src/tasks/pvt/metrics.rs:141-162 | The slope is 0 for fewer than two points, for mismatched lengths, and for a denominator below `f64::EPSILON`. |
| PvtMetrics.OnLineFromPoints | ui/src/tasks/pvt/metrics.rs:146-154 | Points that each satisfy y = a + b·x lie on the line in the recursive sense the sums use. |
| PvtMetrics.SumOfLine | ui/src/tasks/pvt/metrics.rs:148 | For points on y = a + b·x, Σy = n·a + b·Σx. |
| PvtMetrics.SumProductsOfLine | ui/src/tasks/pvt/metrics.rs:149-153 | For points on y = a + b·x, Σxy = a·Σx + b·Σx². |
| PvtMetrics.SlopeFormula | ui/src/tasks/pvt/metrics.rs:156-160 | The quotient (n·Σxy − Σx·Σy)/(n·Σx² − (Σx)²) of sums from points on a line is its slope b. |
| PvtMetrics.SlopeOfLine | ui/src/tasks/pvt/metrics.rs:141-162 | For at least two points on y = a + b·x with a non-negligible denominator, `slope_minutes` returns b. |
| PvtMetrics.SlopeOfLineSums | ui/src/tasks/pvt/metrics.rs:141-162 | The same, for any points whose Σy and Σxy are those of the line. |
| PvtMetrics.SummarizeWithoutReactions | ui/src/tasks/pvt/metrics.rs:57-64 | With no Reaction trial, all statistics, reacted_trials and both lapse counts are 0 and the minimum is not met. total_trials and false_starts pass through. |
| PvtMetrics.SummarizeWithReactions | ui/src/tasks/pvt/metrics.rs:66-90 | Otherwise:<br>• total_trials counts the non-Pending trials and reacted_trials the Reaction trials;<br>• the lapse counts are those of the bands;<br>• false_starts is echoed;<br>• the minimum is met exactly when reacted_trials ≥ min_required. |
| PvtMetrics.Summarize | ui/src/tasks/pvt/metrics.rs:26-92 | total_trials counts the finished trials, reacted_trials the reaction times, and false_starts passes through. The minimum is met exactly when there is some reaction and at least `min_required` of them. Without reactions both lapse counts are 0. |
| PvtMetrics.SummarizePercentilesOrdered | ui/src/tasks/pvt/metrics.rs:68-75 | p10 ≤ median ≤ p90. |
| PvtMetrics.LapseBandsWithinCompleted | ui/src/tasks/pvt/metrics.rs:44-52 | No trial is both a lapse and a minor lapse, and the two counts together never exceed the completed trials. |
| PvtMetrics.IgnoredTrialChangesNothing | ui/src/tasks/pvt/metrics.rs:53 | A FalseStart or Pending trial adds to no reaction-time list and to no count. |
| PvtMetrics.CountCompleted | ui/src/tasks/pvt/metrics.rs:27 | The loop counts exactly the non-Pending trials. |
| PvtMetrics.CollectReactions | ui/src/tasks/pvt/metrics.rs:34-55 | The loop yields the reaction times and onset minutes of the Reaction trials, in order, and the lapse and minor-lapse counts. |
| PvtMetrics.FromTrials | ui/src/tasks/pvt/metrics.rs:26-92 | `from_trials` gives exactly the record `Summarize` describes. |
| ExportCsv.DoubleQuotes | ui/src/results/export.rs:525 | Doubling quotes never shortens the value. |
| ExportCsv.EscapeCsv | ui/src/results/export.rs:519-530 | Empty stays empty; a value without comma, quote or line feed is unchanged; other values are wrapped in quotes. |
| ExportCsv.ParseQuoted | ui/src/results/export.rs:519-530 | Partner reader: a quoted field consumes input. |
| ExportCsv.ParseBare | ui/src/results/export.rs:519-530 | Partner reader: an unquoted field and the rest make up the input. |
| ExportCsv.ParseField | ui/src/results/export.rs:519-530 | Partner reader: a field never lengthens the rest of the input. |
| ExportCsv.ParseRow | ui/src/results/export.rs:508-514 | Partner reader: a record has at least one field and consumes input. |
| ExportCsv.EscapeAll | ui/src/results/export.rs:508-512 | One escaped field per field. |
| ExportCsv.DocumentAppend | ui/src/results/export.rs:456-514 | Appending a row to the table appends its line to the document. |
| ExportCsv.QuotedRoundTrip | ui/src/results/export.rs:523-526 | A quote-doubled value with its closing quote reads back as the value. |
| ExportCsv.BareRoundTrip | ui/src/results/export.rs:527-529 | A value without special characters reads back as itself. |
| ExportCsv.FieldRoundTrip | ui/src/results/export.rs:519-530 | An escaped field followed by a comma, a line feed or nothing reads back as the original value (section 2 of RFC 4180, rules 6 and 7). |
| ExportCsv.RowRoundTrip | ui/src/results/export.rs:508-514 | An escaped, comma-joined, line-feed-terminated record reads back as its fields. |
| ExportCsv.DocumentRoundTrip | ui/src/results/export.rs:445-516 | A document of records reads back as the same records, in order. |
| ExportCsv.PvtColumns | ui/src/results/export.rs:465-480 | Five columns. They hold the PVT values for a "pvt" record whose metrics parse, and are empty otherwise. |
| ExportCsv.NBackColumns | ui/src/results/export.rs:482-499 | Seven columns. They hold the 2-back values for an "nback2" record whose metrics parse, and are empty otherwise. |
| ExportCsv.TailColumns | ui/src/results/export.rs:501-506 | Five general columns: notes, the QC summary and the three QC values. |
| ExportCsv.CsvFields | ui/src/results/export.rs:459-506 | 21 fields in header order: 4 core, 5 PVT, 7 N-back and 5 general. |
| ExportCsv.CsvTable | ui/src/results/export.rs:417-517 | The table has the header first and one row per record. |
| ExportCsv.TableRows | ui/src/results/export.rs:456-514 | Row i + 1 is the fields of record i, in input order. |
| ExportCsv.TableDocument | ui/src/results/export.rs:445-516 | The document is the header line followed by one line per record. |
| ExportCsv.RecordFields | ui/src/results/export.rs:457-506 | Pushing the column groups as `build_csv` does gives the 21 fields. |
| ExportCsv.AppendRecords | ui/src/results/export.rs:456-516 | The loop appends each record's line, in order, to what is already written. |
| ExportCsv.BuildCsv | ui/src/results/export.rs:417-517 | The output is the document of the table: the header, then one line per record. |
| ExportCsv.TableRowsWide | ui/src/results/export.rs:418-506 | Every row, the header included, has exactly 21 fields. |
| ExportCsv.CsvRoundTrip | ui/src/results/export.rs:417-517 | Reading the export back gives the header and each record's 21 fields, in order. |
| ExportCsv.DocumentEndsInLineFeed | ui/src/results/export.rs:514 | Every non-empty document ends in a line feed. |
| ExportText.EscapeChar | ui/src/results/export.rs:1615-1622 | The reference escaping of one character: an entity exactly for `&`, `<`, `>`, `"` and `'`. |
| ExportText.EscapeTextIsEscapeEach | ui/src/results/export.rs:1615-1622 | The chain of replacements, with `&` first, equals escaping each character on its own. |
| ExportText.EscapeText | ui/src/results/export.rs:1615-1622 | Text with none of `& < > " '` comes back unchanged. |
| ExportText.EscapeEachHasNoMarkup | ui/src/results/export.rs:1615-1622 | Escaped text holds no raw `<`, `>`, `"` or `'`. |
| ExportText.EscapeTextRoundTrip | ui/src/results/export.rs:1615-1622 | Undoing the entities gives the original text, so nothing is escaped twice. |
| ExportText.EscapeEachRoundTrip | ui/src/results/export.rs:1615-1622 | The same for the per-character escaping. |
| ExportText.Ellipsize | ui/src/results/export.rs:53-61 | A text within the limit is unchanged. A longer one keeps its first |r| − 1 characters, ends in `…` and has exactly `max` characters (1 when max is 0). |
| ExportText.SerialOfId | ui/src/results/export.rs:42-46 | The identifier `prefix-stem-n` carries the serial n, whatever dashes prefix and stem hold. |
| ExportText.IdsDistinct | ui/src/results/export.rs:42-46 | Identifiers with different serials differ. |
| ExportText.IdGen.constructor | ui/src/results/export.rs:36-41 | The counter starts at 1 and nothing is issued. |
| ExportText.IdGen.Next | ui/src/results/export.rs:42-46 | It returns `prefix-stem-n` for the current count, which rises by one. The identifier differs from every one issued before. |
| ExportText.TwoIds | ui/src/results/export.rs:909-911 | Two identifiers drawn in turn from one generator are `…-1` and `…-2`, and differ. |
| ExportLayout.Inset | ui/src/results/export.rs:84-91 | The rectangle is moved in by dx and dy. Each side loses twice that, and never goes below zero. |
| ExportLayout.InsetInside | ui/src/results/export.rs:84-91 | An inset with room lies inside the rectangle and keeps its centre. |
| ExportLayout.StackedApart | ui/src/results/export.rs:111-120 | Blocks stacked one gutter apart with non-negative heights do not overlap. |
| ExportLayout.Layout.constructor | ui/src/results/export.rs:102-109 | The cursor and left edge start at the margin, and the width is the total minus both margins. |
| ExportLayout.Layout.PlaceBlock | ui/src/results/export.rs:111-120 | The block is placed at the cursor, and the cursor moves past it and one gutter. The blocks stay stacked. |
| ExportLayout.Layout.Report | ui/src/results/export.rs:122-127 | The height used is the bottom of the last block plus the canvas margin. |
| ExportLayout.PlaceCards | ui/src/results/export.rs:848-852 | The cards placed in turn keep their heights and the left margin. The first starts at the margin, and no two overlap. |
| ExportLayout.Flex | ui/src/results/export.rs:734-735 | How far a plot may still shrink is never negative. |
| ExportLayout.ShrinkStep | ui/src/results/export.rs:741-746 | A proportional shrink takes min(need, flex) in total and never more than a plot's own flex. |
| ExportLayout.ShrinkStepFits | ui/src/results/export.rs:733-751 | One pass of the shrink loop reaches its exit: the plots then fit within the tolerance, so the loop ends. |
| ExportLayout.FitPlots | ui/src/results/export.rs:716-761 | Both heights end at most at their ceilings. Plots that already fit are only capped. On the shrink path both end at least at their minimums (or the ceiling). Plots that start above their minimums do not grow and end within the target. |
| ExportOverview.AverageValue | ui/src/results/export.rs:1607-1613 | None exactly for no values; otherwise the average times the count is the sum. |
| ExportOverview.AverageWithinBounds | ui/src/results/export.rs:1607-1613 | The average lies between any lower and upper bound of the values. |
| ExportOverview.CleanOnesExact | ui/src/results/export.rs:1343-1346 | The clean records are exactly the records the clean test accepts. |
| ExportOverview.CandidatesFromRecords | ui/src/results/export.rs:1343-1350 | The candidates are records of the input. If any record is clean, only clean ones are candidates; if none is, all records are. |
| ExportOverview.CollectBars | ui/src/results/export.rs:1361-1401 | The loop yields one bar per PVT record whose time stamp and metrics parse, in record order. |
| ExportOverview.InsertSorted | ui/src/results/export.rs:1407 | Inserting into a time-sorted list keeps it sorted. |
| ExportOverview.SortByTimePermutes | ui/src/results/export.rs:1407 | Sorting the bars is a permutation. |
| ExportOverview.SortByTimeSorted | ui/src/results/export.rs:1407 | The sorted bars are in time order. |
| ExportOverview.SortByTimeStable | ui/src/results/export.rs:1407 | Bars with equal time stamps keep their order (`sort_by` is stable). |
| ExportOverview.KeepLast | ui/src/results/export.rs:1410-1413 | At most eight samples are kept. |
| ExportOverview.KeepLastIsSuffix | ui/src/results/export.rs:1410-1413 | The kept samples are the last ones, in their original order. |
| ExportOverview.BarSamples | ui/src/results/export.rs:1343-1413 | The bars are sorted by time and are a stable permutation of the collected bars. The window is the last min(8, n) samples in chronological order. |
| ExportOverview.SortBars | ui/src/results/export.rs:1407 | The sort is sorted, a permutation, and stable. |
| ExportOverview.LastEight | ui/src/results/export.rs:1410-1413 | The window is the last min(8, n) samples. |
| ResultsUtils.DateAndTime | ui/src/results/utils.rs:7-9 | The date is the text before the first `T`, or the whole text when there is none. |
| ResultsUtils.PrimaryTime | ui/src/results/utils.rs:10-13 | The time text is the longest prefix without `.`, `Z` or `+`, stopping at the first of them. |
| ResultsUtils.TimeDisplay | ui/src/results/utils.rs:10-15 | The shown time is that prefix cut to five characters, and is empty exactly when the time part is empty or starts with a stop character. |
| ResultsUtils.TimestampLabel | ui/src/results/utils.rs:6-29 | The label starts with the date, and ends in " · tz" whenever tz is non-empty. |
| ResultsUtils.TimestampLabelMiddle | ui/src/results/utils.rs:6-29 | After the date comes " · time" when the time part is non-empty, and nothing otherwise. The label's length is the date's, plus that middle's, plus 3 + \|tz\| when a time zone is present. |
| ResultsUtils.FormatTimestamp | ui/src/results/utils.rs:6-29 | The label built step by step is `TimestampLabel`. |
| ResultsUtils.QcSummary | ui/src/results/utils.rs:31-50 | Pushing the present issues and rendering them gives `QcSummaryText`. |
| ResultsUtils.QcSummaryText | ui/src/results/utils.rs:31-50 | The text always starts "QC: ". With no issue the rest is "clean run"; otherwise it starts with the first issue present, in the order focus, blur, minimum trials. |
| ResultsUtils.QcParts | ui/src/results/utils.rs:33-44 | No issue part exactly when nothing was lost, nothing blurred and the minimum was met; each part is a non-empty phrase. |
| ResultsUtils.QcSummaryCleanIff | ui/src/results/utils.rs:31-50 | The text is "QC: clean run" exactly when nothing was lost, nothing blurred and the minimum was met. |
| ResultsUtils.TaskLabel | ui/src/results/utils.rs:52-58 | "pvt" and "nback2" get their names, and everything else is "Session". |
| ResultsUtils.FormatDevice | ui/src/results/utils.rs:60-70 | None exactly when both trimmed inputs are empty; the one non-empty value alone; otherwise "platform · tz". |
| ResultsUtils.FormatDeviceTrimmed | ui/src/results/utils.rs:60-70 | A device line is never blank and has no surrounding white space. |
| Readiness.PolicyMinIntervalHours | ui/src/core/readiness.rs:171-177 | 72 h for "nback2", 4 h for "pvt", and 0 otherwise. |
| Readiness.PolicyWholeHours | ui/src/core/readiness.rs:171-177 | Every policy interval is a non-negative whole number of hours. |
| Readiness.Evaluate | ui/src/core/readiness.rs:138-168 | Without a parsed last run the task is ready, with nothing else reported. With a last run:<br>• hours since = elapsed seconds / 3600;<br>• ready exactly when that reaches the interval;<br>• a positive wait is reported exactly when not ready;<br>• next = last + ⌊interval·3600⌋ s. |
| Readiness.ReadyIffPastNext | ui/src/core/readiness.rs:145-154 | Ready exactly from the next recommended time on. |
| Readiness.ReadyStaysReady | ui/src/core/readiness.rs:145-148 | Once ready, the task stays ready later. |
| Readiness.EarlyForRecentNBack | ui/src/core/readiness.rs:266-272 | A 2-back run ten hours ago is early, with a positive wait. |
| Readiness.ReadyAfterInterval | ui/src/core/readiness.rs:275-280 | A PVT run five hours ago is ready. |
| Readiness.StatusLabel | ui/src/core/readiness.rs:88-94 | "Ready" exactly when ready, and "Early" otherwise. |
| Readiness.CssClass | ui/src/core/readiness.rs:125-131 | The ready class exactly when ready, and the early class otherwise. |
| Readiness.ElapsedAsWritten | ui/src/core/readiness.rs:202-224 | The source's choice of phrase: "<1m" below a minute, minutes below an hour, hours below 48 h, and days (with hours) otherwise. |
| Readiness.Render | ui/src/core/readiness.rs:202-224 | The text is "<1m" exactly for the under-a-minute phrase. It ends in `m` exactly for minute phrases, and in `d` exactly for whole days. |
| Readiness.RenderInjective | ui/src/core/readiness.rs:202-224 | Different non-negative phrases render as different texts. |
| Readiness.HumanElapsed | ui/src/core/readiness.rs:202-224 | "<1m" exactly below a minute, and a text ending in `m` exactly below an hour. A text ending in `d` means at least 48 h. |
| Readiness.HumanElapsedDistinguishes | ui/src/core/readiness.rs:202-224 | Elapsed times that fall in different phrases are shown as different texts. |
| Readiness.ElapsedPhrase | ui/src/core/readiness.rs:202-224 | The same thresholds, with a rounded-up remainder of 24 h carried into the days. |
| Readiness.ElapsedAsWrittenDays | ui/src/core/readiness.rs:217-223 | The source's days and remaining hours add up to the rounded hours, but the hours may reach 24. |
| Readiness.ElapsedDays | ui/src/core/readiness.rs:217-223 | Corrected: at least 2 days, 0–23 further hours, and the two add up to the rounded hours. |
| Readiness.ElapsedMinutes | ui/src/core/readiness.rs:209-212 | Below an hour, the minutes are the rounded minutes, from 1 to 60. |
| Readiness.ElapsedHours | ui/src/core/readiness.rs:213-216 | Below two days, the hours are the rounded hours, from 1 to 48. |
| Readiness.ElapsedRoundsToBranchTop | ui/src/core/readiness.rs:209-216 | The rounding reaches the top of a branch: 59.7 minutes read "60m" and 47.75 h read "48h", as written and in the corrected phrase alike. |
| Readiness.ElapsedAsWrittenCarries | ui/src/core/readiness.rs:217-223 | 71.5 h reads "2d 24h" as written and "3d" corrected. |
| Readiness.HumanInterval | ui/src/core/readiness.rs:229-235 | "Nd" exactly for positive multiples of 24 h (N = hours/24), and "Nh" otherwise. |
| Readiness.HumanIntervalInjective | ui/src/core/readiness.rs:229-235 | Different intervals get different phrases. |
| Readiness.HumanIntervalExamples | ui/src/core/readiness.rs:229-235 | 72 h is "3d" and 4 h is "4h". |
| Platform.AsStr | ui/src/core/platform.rs:16-23 | Every platform has a non-empty name. |
| Platform.AsStrInjective | ui/src/core/platform.rs:16-23 | The four platforms have four different names. |
| Platform.TruncDiv | ui/src/core/platform.rs:101 | Integer division truncates toward zero: the magnitude is \|a\| / b, and the sign is that of a. |
| Platform.Pad2 | ui/src/core/platform.rs:106 | `{:02}`: at least two digits, exactly two below 100, whose value is the number. |
| Platform.FormatUtcOffset | ui/src/core/platform.rs:100-108 | The corrected label is "UTC" exactly for offset 0. |
| Platform.FormatUtcOffsetAsWritten | ui/src/core/platform.rs:100-108 | Outside (−60, 0) the source's label is the corrected one. Inside (−60, 0) it is the label of the negated offset, so the sign is lost. |
| Platform.AsWrittenReadsBack | ui/src/core/platform.rs:100-108 | Reading the source's label back gives the offset, except in (−60, 0), where it gives the offset's absolute value. |
| Platform.LabelParts | ui/src/core/platform.rs:106 | The pieces of a label can be read back off their positions. |
| Platform.FormatUtcOffsetRoundTrip | ui/src/core/platform.rs:100-108 | Reading the corrected label back gives the offset. |
| Platform.AsWrittenLosesSign | ui/src/core/platform.rs:101-106 | An offset of −30 min is labelled "UTC+00:30" as written and "UTC-00:30" corrected. |
| I18nCompleteness.FtlLineKey | ui/src/tests/i18n_completeness.rs:18-33 | Blank lines, `#` comments and `-` terms give nothing. An identifier that is found is the trimmed text before the line's first `=`. It is non-empty and made only of valid key characters. |
| I18nCompleteness.DefinitionLine | ui/src/tests/i18n_completeness.rs:27-33 | A line `id=value` with a valid identifier defines `id`, whatever the value. |
| I18nCompleteness.CollectIff | ui/src/tests/i18n_completeness.rs:17-35 | An identifier is collected exactly when some line yields it. |
| I18nCompleteness.FtlKeysOfIff | ui/src/tests/i18n_completeness.rs:15-36 | An identifier is among the keys exactly when some line defines it. |
| I18nCompleteness.FtlKeysOfDefined | ui/src/tests/i18n_completeness.rs:15-36 | An identifier is collected exactly when, on some line that is not blank, a comment or a term, it is the trimmed text before `=` and is a valid non-empty identifier. |
| I18nCompleteness.FtlKeysValid | ui/src/tests/i18n_completeness.rs:27-40 | Every key is non-empty and made of a–z, 0–9 and `-`. |
| I18nCompleteness.ParseFtlKeys | ui/src/tests/i18n_completeness.rs:15-36 | The line loop yields exactly the identifiers the lines define. |
| I18nCompleteness.FindNeedle | ui/src/tests/i18n_completeness.rs:80-84 | The position found holds `t!("`, at or after the start. |
| I18nCompleteness.FindNeedleFirst | ui/src/tests/i18n_completeness.rs:80-84 | It is the first such position, and −1 only when there is none. |
| I18nCompleteness.LiteralEnd | ui/src/tests/i18n_completeness.rs:87-104 | The end of a literal is a quote or lies past the text; a backslash skips the next byte. |
| I18nCompleteness.ScanAsWritten | ui/src/tests/i18n_completeness.rs:77-106 | A start past the end of the text is the panicking slice (None). Wherever the source's scan does not panic, it finds what the corrected scan finds. |
| I18nCompleteness.Scan | ui/src/tests/i18n_completeness.rs:77-106 | A text with no further `t!("` yields no identifiers. |
| I18nCompleteness.ScanAsWrittenPanics | ui/src/tests/i18n_completeness.rs:80-105 | A file ending in an unclosed `t!("ab` makes the source's scan slice past the end. |
| I18nCompleteness.ScanSound | ui/src/tests/i18n_completeness.rs:96-99 | Every identifier the scan reports is valid and appears as a closed `t!("…"` literal. |
| I18nCompleteness.FindClosingQuote | ui/src/tests/i18n_completeness.rs:87-104 | The inner loop stops at `LiteralEnd`. |
| I18nCompleteness.ScanSource | ui/src/tests/i18n_completeness.rs:77-106 | The scanner loop yields exactly `Scan`, the literals with valid identifiers. |
| I18nCompleteness.MissingFrom | ui/src/tests/i18n_completeness.rs:159-163 | The identifiers reported missing are exactly the required ones the present set lacks: the referenced keys minus the fallback's, and (lines 188-193) the fallback's keys minus a locale's. |
| I18nCompleteness.LocaleMissingEmptyIff | ui/src/tests/i18n_completeness.rs:188-196 | A locale misses nothing exactly when its file defines every fallback identifier. |
| I18nCompleteness.LocaleMissingKeys | ui/src/tests/i18n_completeness.rs:185-193 | Parsing a locale's file and subtracting gives its missing identifiers. |
| I18nCompleteness.ExtractTranslationKeys | ui/src/tests/i18n_completeness.rs:51-109 | The identifiers of all source files are the union of their scans. |
| I18nCompleteness.ReportsAll | ui/src/tests/i18n_completeness.rs:177-197 | The map reports each locale that misses something exactly, and is empty exactly when no locale misses anything. |
| I18nCompleteness.MissingPerLocale | ui/src/tests/i18n_completeness.rs:177-197 | The locale loop builds that map. |
| I18nCompleteness.CheckCompleteness | ui/src/tests/i18n_completeness.rs:132-208 | It fails for want of keys exactly when the fallback has none. It reports the referenced identifiers missing from the fallback, then the locales' gaps. It passes exactly when nothing is missing anywhere. |
| I18nMissingKeys.AcceptedKey | ui/tests/i18n_missing_keys.rs:76-96 | Blank lines, `#` comments and `.` attribute lines give nothing. An accepted key is the trimmed text before the line's first `=`. It is non-empty, has no space or tab, and does not start with `[` or `@`. |
| I18nMissingKeys.AcceptedKeyDefines | ui/tests/i18n_missing_keys.rs:76-96 | A line yields a key exactly when it is not blank, a comment or an attribute, has an `=`, and its trimmed text before `=` is an acceptable key. |
| I18nMissingKeys.KeysInDefined | ui/tests/i18n_missing_keys.rs:72-100 | `extract_keys` collects a key exactly when some line of the file defines it. |
| I18nMissingKeys.DefinitionLine | ui/tests/i18n_missing_keys.rs:85-96 | A line `key=value` with an acceptable key defines that key. |
| I18nMissingKeys.CollectedIffOccurs | ui/tests/i18n_missing_keys.rs:72-100 | A key is extracted exactly when at least one line defines it. |
| I18nMissingKeys.DupsIffTwice | ui/tests/i18n_missing_keys.rs:121-123 | A key is reported as duplicated exactly when at least two lines define it. |
| I18nMissingKeys.DupsAreKeys | ui/tests/i18n_missing_keys.rs:103-126 | Every duplicated key is a defined key. |
| I18nMissingKeys.ExtractKeys | ui/tests/i18n_missing_keys.rs:72-100 | The line loop yields exactly the keys the lines define. |
| I18nMissingKeys.FindDupKeys | ui/tests/i18n_missing_keys.rs:103-126 | The loop yields exactly the keys defined twice or more. |
| I18nMissingKeys.SeenAndDups | ui/tests/i18n_missing_keys.rs:107-126 | For any reading of a line's key, the loop gives the keys seen and those seen again. |
| I18nMissingKeys.ReportedEmptyIff | ui/tests/i18n_missing_keys.rs:42-61 | Nothing is reported exactly when no locale lacks anything. |
| I18nMissingKeys.ReportedSound | ui/tests/i18n_missing_keys.rs:42-61 | Each report names a locale of the input and what it lacks, which is not empty. |
| I18nMissingKeys.DiffEmptyIff | ui/tests/i18n_missing_keys.rs:46-52 | A set difference is empty exactly when the first set is included in the second. |
| I18nMissingKeys.FailuresEmptyIff | ui/tests/i18n_missing_keys.rs:42-68 | No failure exactly when every locale defines every fallback key. |
| I18nMissingKeys.FailuresSound | ui/tests/i18n_missing_keys.rs:54-60 | Each failure pairs a locale with the non-empty set of fallback keys it lacks. |
| I18nMissingKeys.LocaleMissingKeys | ui/tests/i18n_missing_keys.rs:44-52 | Extracting a locale's keys and subtracting gives what it lacks. |
| I18nMissingKeys.CheckLocales | ui/tests/i18n_missing_keys.rs:42-68 | The locale loop ends as `LocalesVerdict` says: at the first file with duplicate keys, or with all failures, or complete. |
| I18nMissingKeys.AllLocalesHaveAllFallbackKeys | ui/tests/i18n_missing_keys.rs:18-69 | The whole check ends as `TestVerdict` says. It checks the fallback's keys first, then the fallback's duplicates, then the locales. |
| I18nMissingKeys.TestVerdict | ui/tests/i18n_missing_keys.rs:18-69 | It fails for want of keys exactly when the fallback defines none (lines 28-31). |
| I18nMissingKeys.LocalesVerdict | ui/tests/i18n_missing_keys.rs:42-68 | The locale stage never reports missing fallback keys. A duplicate report names one of the locales with its non-empty duplicate set. An incomplete report lists exactly the failing locales, and there is at least one. |
| I18nMissingKeys.VerdictDuplicates | ui/tests/i18n_missing_keys.rs:32-43 | A duplicate report names the fallback with its duplicates, or the first locale whose file repeats a key, with those keys. |
| I18nMissingKeys.VerdictIncomplete | ui/tests/i18n_missing_keys.rs:54-68 | Missing keys are reported only when no file repeats a key, and then every failing locale is reported. |
| I18nMissingKeys.VerdictComplete | ui/tests/i18n_missing_keys.rs:18-69 | It passes exactly when:<br>• the fallback has keys;<br>• no file repeats a key;<br>• every locale defines every fallback key. |

## Left out

**Floating point and numerics**

- Readiness.ElapsedPhrase: corrects only the carry of the days remainder. It keeps the source's "60m" just below an hour and "48h" just below two days (see `Readiness.ElapsedRoundsToBranchTop`). These are well-formed amounts, unlike "2d 24h", but the carry into the next unit that the days branch evidently intends is not applied to them.
- ExportOverview.SortBars: bars are ordered on `createdInstant`, a whole number of seconds, while `bar_collect` sorts on the full `OffsetDateTime` (export.rs:1407). Two runs stamped within the same second therefore keep their collection order here, even where the source would order them by their sub-second parts. The same holds for `ExportOverview.BarSamples`.
- Floating point: every `f64`/`f32` quantity is an exact `real`, so rounding error, NaN, infinities and `is_finite` are not modelled. `ExportOverview.CollectBars` therefore has no finiteness filter on the median.
- Stats.Variance: each record holds the sample variance. The `std_dev` fields would be its square root; `sqrt` is not modelled.
- NBackMetrics.SignalDetection: `inverse_normal_cdf` (Acklam's rational approximation) is the parameter `z`. Its coefficients are not modelled, and `DPrimeMonotone` assumes only that `z` is increasing.
- NBackEngine.TargetQuota: the ratio is an exact `real`, not an `f32`. `f32::round` is floor(x + 1/2), which agrees with the source for the non-negative products it meets.
- Readiness.Round: negative arguments are written as halves away from zero. The contract only speaks of non-negative ones, the only ones elapsed times produce.
- ExportLayout.FitPlots: the shrink `loop` is written as the single pass it takes in exact arithmetic. `ShrinkStepFits` shows that the pass always leaves by one of the loop's two exits. Floating-point residue, which the 1e-6 tolerance is there to absorb, is not modelled.

**Integer widths**

- Counters are `nat`. The `u32` `saturating_add` of the 2-back counters and the `u32` lapse counters only differ from that beyond 2^32 trials.
- Platform.FormatUtcOffset: the offset is an unbounded `int`. The `i32` range and the overflow of `abs(i32::MIN)` are not modelled.
- NBackEngine.Engine.Start: `run_id` wraps modulo 2^64, as `wrapping_add` does.

**Randomness, time and the environment**

- Randomness: `StdRng`, `seed_from_u64`, `seeded_rng` and the shuffle algorithm are not modelled. The shuffle is any permutation, and `random_letter` returns any pool letter other than the disallowed one.
- NBackEngine.ChooseTargets: the shuffle-truncate-sort of the candidates and the `binary_search` against them are stated as a set of `quota` positions in [2, length) and membership in it.
- Clocks: `timing::now` and `OffsetDateTime::now_utc` are not modelled. Stimulus and response stamps and the current time are parameters.
- Platform detection: `detect_platform`, `spawn_future` and the native offset lookup are not modelled.

**Parsing, formatting and I/O**

- Parsing: serde (the metrics payload) and the `time` crate (RFC 3339 `created_at`) are not modelled. The record carries their outcome as `Option` fields.
- Text of numbers: the CSV writes numbers through `f64` `Display`, which is the parameter `show`. Integer counts are rendered in decimal.
- ExportCsv.EscapeCsv: as in the source, a carriage return does not trigger quoting, and records end in a line feed rather than CRLF. This differs from section 2 of RFC 4180, and the round trip is stated for this line-feed form.
- Overview card: `format_time_badge` and `record_is_clean` are parameters. Only the bar samples are modelled; the sparkline points and the medians, accuracies and d′ lists of `SnapshotOverview::build` are not.
- Export I/O: the clipboard, the downloads, the export directory, the PNG rendering, the JSON export and the SVG document assembly are not modelled. Nor are `crisp`, `text_metrics` and the theme.
- Readiness text: `detail_message` and `format_rfc3339_compact` format clock-derived text and are not modelled.
- Readiness.HumanInterval: it is modelled for whole hours, the only intervals the policy yields (`PolicyWholeHours`).

**The translation-file checks**

- The checks read the files and directories (`read_dir`, the stack walk, `collect_locale_dirs`, `CARGO_MANIFEST_DIR`). These are not modelled: the fallback, the source files and each locale are given as contents. The panic for a locale folder without its file is not modelled.
- Report text: sorting, the panic messages, the report text and the note on unused fallback keys only format messages. The model returns the sets themselves.
- I18nCompleteness.ScanSource: the scanner works on the text's characters, where the source reads bytes and rebuilds the literal with `from_utf8`. The two agree on ASCII sources.
- Text.Lines: `str::lines` is modelled as splitting at line feeds. A trailing empty line and a `\r` before the line feed are kept, which the trim on every line makes harmless.
- I18nMissingKeys.FindDupKeys: the duplicates are returned as a set of keys; the message text is not modelled. The embedded `EN_US`, `ES_ES` and `FR_FR` files are inputs.

**Out of scope**

- The PVT engine (a placeholder holding a seed) and the task views are not modelled.

## Findings

| source | as written | input that shows it | evidently intended | confidence | as-written member | corrected member |
|---|---|---|---|---|---|---|
| ui/src/core/platform.rs:101-106 | The hours are `offset / 60`, truncated toward zero, and are printed with `{:+03}`, so the sign comes from the hours alone. | offset −30 gives hours 0 and the label "UTC+00:30" | "UTC-00:30", with the sign of the offset | high, not executed | Platform.AsWrittenLosesSign | Platform.FormatUtcOffsetRoundTrip |
| ui/src/core/readiness.rs:217-223 | The days are floor(hours/24), and the remainder is rounded separately, so it can round up to 24. | 71.5 h gives "2d 24h" | "3d": a full day carried into the days | high, not executed | Readiness.ElapsedAsWrittenCarries | Readiness.ElapsedDays |
| ui/src/tests/i18n_completeness.rs:80-105 | After an unclosed `t!("` literal the scan index becomes the length + 1, and `content[i..]` slices past the end. | a source file ending in `t!("ab` | the scan ends at the end of the file | medium, not executed | I18nCompleteness.ScanAsWrittenPanics | I18nCompleteness.ScanSource |
