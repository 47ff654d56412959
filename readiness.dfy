/**
 * The advisory cooldown between runs of a task: the policy interval, the
 * evaluation against the latest stored run, and the compact phrases for
 * elapsed time and for the policy interval. Time stamps are whole
 * seconds since the Unix epoch; the current time is a parameter.
 */
module Readiness {
  import opened Wrappers
  import opened Text
  import opened Records

  /** `policy_min_interval_hours`: 72 h for the 2-back, 4 h for the PVT, none otherwise. */
  function PolicyMinIntervalHours(task: string): (h: real)
    ensures task == "nback2" ==> h == 72.0
    ensures task == "pvt" ==> h == 4.0
    ensures task != "nback2" && task != "pvt" ==> h == 0.0
  {
    match task
    case "nback2" => 72.0
    case "pvt" => 4.0
    case _ => 0.0
  }

  /** Every policy interval is a whole, non-negative number of hours. */
  lemma PolicyWholeHours(task: string)
    ensures PolicyMinIntervalHours(task) >= 0.0
    ensures PolicyMinIntervalHours(task) == PolicyMinIntervalHours(task).Floor as real
  {
  }

  datatype ReadinessResult = ReadinessResult(
    lastCompleted: Option<int>,
    hoursSince: Option<real>,
    minIntervalHours: real,
    ready: bool,
    waitRemainingHours: Option<real>,
    nextRecommended: Option<int>,
    task: string)

  /** The last run's time stamp, when there is a last run and its `created_at` parses. */
  function LastCompleted(last: Option<SummaryRecord>): Option<int> {
    match last
    case None => None
    case Some(r) => r.createdInstant
  }

  /**
   * `evaluate`: without a usable last run the task is ready; otherwise the
   * hours since it are compared with the policy interval, the remaining
   * wait is reported while early, and the next recommended time is the
   * last run plus the interval in whole seconds.
   */
  function Evaluate(task: string, last: Option<SummaryRecord>, now: int): (r: ReadinessResult)
    ensures r.task == task && r.minIntervalHours == PolicyMinIntervalHours(task)
    ensures r.lastCompleted == LastCompleted(last)
    ensures r.lastCompleted.None? ==>
      r.ready && r.hoursSince.None? && r.waitRemainingHours.None? && r.nextRecommended.None?
    ensures r.lastCompleted.Some? ==>
      r.hoursSince == Some((now - r.lastCompleted.value) as real / 3600.0)
      && (r.ready <==> r.hoursSince.value >= r.minIntervalHours)
      && (r.waitRemainingHours.Some? <==> !r.ready)
      && (r.waitRemainingHours.Some? ==> r.waitRemainingHours.value == r.minIntervalHours - r.hoursSince.value > 0.0)
      && r.nextRecommended == Some(r.lastCompleted.value + (r.minIntervalHours * 3600.0).Floor)
  {
    var minInterval := PolicyMinIntervalHours(task);
    match LastCompleted(last)
    case None => ReadinessResult(None, None, minInterval, true, None, None, task)
    case Some(ts) =>
      var hours := (now - ts) as real / 3600.0;
      var ready := hours >= minInterval;
      var wait := if ready then None else Some(if minInterval - hours >= 0.0 then minInterval - hours else 0.0);
      var next := ts + (minInterval * 3600.0).Floor;
      ReadinessResult(Some(ts), Some(hours), minInterval, ready, wait, Some(next), task)
  }

  /** Ready exactly from the next recommended time on. */
  lemma ReadyIffPastNext(task: string, last: Option<SummaryRecord>, now: int)
    requires LastCompleted(last).Some?
    ensures var r := Evaluate(task, last, now);
      r.ready <==> now >= r.nextRecommended.value
  {
    PolicyWholeHours(task);
    var ts := LastCompleted(last).value;
    var m := PolicyMinIntervalHours(task);
    assert (m * 3600.0).Floor as real == m * 3600.0;
    DivideByHour(now - ts, m);
  }

  lemma DivideByHour(seconds: int, m: real)
    ensures seconds as real / 3600.0 >= m <==> seconds as real >= m * 3600.0
  {
  }

  /** Once ready, a task stays ready as time goes on. */
  lemma ReadyStaysReady(task: string, last: Option<SummaryRecord>, now: int, later: int)
    requires now <= later && Evaluate(task, last, now).ready
    ensures Evaluate(task, last, later).ready
  {
    if LastCompleted(last).Some? {
      ReadyIffPastNext(task, last, now);
      ReadyIffPastNext(task, last, later);
    }
  }

  /** A 2-back run ten hours ago: early, with time still to wait. */
  lemma EarlyForRecentNBack(last: SummaryRecord, now: int)
    requires last.createdInstant == Some(now - 10 * 3600)
    ensures var r := Evaluate("nback2", Some(last), now);
      !r.ready && r.waitRemainingHours.Some? && r.waitRemainingHours.value > 0.0
  {
  }

  /** A PVT run five hours ago: ready. */
  lemma ReadyAfterInterval(last: SummaryRecord, now: int)
    requires last.createdInstant == Some(now - 5 * 3600)
    ensures Evaluate("pvt", Some(last), now).ready
  {
  }

  /** `status_label`. */
  function StatusLabel(r: ReadinessResult): (s: string)
    ensures s == "Ready" <==> r.ready
    ensures s == "Ready" || s == "Early"
  {
    if r.ready then "Ready" else "Early"
  }

  /** `css_class`. */
  function CssClass(r: ReadinessResult): (s: string)
    ensures s == "task-readiness--ready" <==> r.ready
    ensures s == "task-readiness--ready" || s == "task-readiness--early"
  {
    if r.ready then "task-readiness--ready" else "task-readiness--early"
  }

  // ---- human_elapsed ----

  /** `f64::round`: to the nearest integer, halves away from zero. */
  function Round(x: real): (n: int)
    ensures x >= 0.0 ==> n >= 0 && n as real - 0.5 <= x < n as real + 0.5
  {
    if x >= 0.0 then (x + 0.5).Floor else -((-x + 0.5).Floor)
  }

  lemma RoundShift(x: real, k: int)
    requires x >= 0.0 && k >= 0
    ensures Round(x + k as real) == Round(x) + k
  {
    assert (x + k as real + 0.5).Floor == (x + 0.5).Floor + k;
  }

  /** The shape of an elapsed-time phrase. */
  datatype Phrase = UnderAMinute | Minutes(m: int) | Hours(h: int) | Days(d: int, h: int)

  /** The phrase for a shape: "<1m", "Xm", "Xh", "Dd" or "Dd Hh". */
  function Render(e: Phrase): (r: string)
    ensures |r| >= 2
    ensures r[|r| - 1] == 'm' <==> e.UnderAMinute? || e.Minutes?
    ensures r[|r| - 1] == 'd' <==> e.Days? && e.h == 0
    ensures e.UnderAMinute? <==> r == "<1m"
  {
    match e
    case UnderAMinute => "<1m"
    case Minutes(m) =>
      var r := IntToString(m) + "m";
      IntToStringHead(m);
      assert r[0] == IntToString(m)[0];
      r
    case Hours(h) => IntToString(h) + "h"
    case Days(d, h) => if h == 0 then IntToString(d) + "d" else IntToString(d) + "d " + IntToString(h) + "h"
  }

  lemma IntToStringHead(n: int)
    ensures IntToString(n)[0] == '-' || IsDigit(IntToString(n)[0])
  {
  }

  /**
   * The shape `human_elapsed` chooses, as the source computes it: whole
   * days by floor, then the remaining hours rounded. A remainder of 23.5 h
   * or more rounds up to 24.
   */
  function ElapsedAsWritten(hours: real): (e: Phrase)
    ensures hours < 1.0 / 60.0 <==> e.UnderAMinute?
    ensures e.Minutes? <==> 1.0 / 60.0 <= hours < 1.0
    ensures e.Hours? <==> 1.0 <= hours < 48.0
    ensures e.Days? <==> hours >= 48.0
  {
    if hours < 1.0 / 60.0 then UnderAMinute
    else if hours < 1.0 then Minutes(Round(hours * 60.0))
    else if hours < 48.0 then Hours(Round(hours))
    else
      var days := (hours / 24.0).Floor;
      Days(days, Round(hours - days as real * 24.0))
  }

  /** The corrected shape: a remainder that rounds to a full day is carried into the days. */
  function ElapsedPhrase(hours: real): (e: Phrase)
    ensures hours < 1.0 / 60.0 <==> e.UnderAMinute?
    ensures e.Minutes? <==> 1.0 / 60.0 <= hours < 1.0
    ensures e.Hours? <==> 1.0 <= hours < 48.0
    ensures e.Days? <==> hours >= 48.0
  {
    match ElapsedAsWritten(hours)
    case Days(d, h) => if h == 24 then Days(d + 1, 0) else Days(d, h)
    case other => other
  }

  /** The fields of a phrase are not negative. */
  predicate NonNegative(e: Phrase) {
    match e
    case UnderAMinute => true
    case Minutes(m) => m >= 0
    case Hours(h) => h >= 0
    case Days(d, h) => d >= 0 && h >= 0
  }

  /** A string of digits followed by a non-digit splits there in one way only. */
  lemma DigitsThenMark(a: string, x: string, b: string, y: string)
    requires forall i :: 0 <= i < |a| ==> IsDigit(a[i])
    requires forall i :: 0 <= i < |b| ==> IsDigit(b[i])
    requires x != [] && y != [] && !IsDigit(x[0]) && !IsDigit(y[0])
    requires a + x == b + y
    ensures a == b && x == y
  {
    LeadingDigitsOf(a, x);
    LeadingDigitsOf(b, y);
    assert a == (a + x)[..|a|] && b == (b + y)[..|b|];
    assert x == (a + x)[|a|..] && y == (b + y)[|b|..];
  }

  /** The number of decimal digits a string starts with. */
  function LeadingDigits(s: string): (n: nat)
    ensures n <= |s|
  {
    if s == [] || !IsDigit(s[0]) then 0 else 1 + LeadingDigits(s[1..])
  }

  lemma {:induction false} LeadingDigitsOf(a: string, x: string)
    requires forall i :: 0 <= i < |a| ==> IsDigit(a[i])
    requires x != [] && !IsDigit(x[0])
    ensures LeadingDigits(a + x) == |a|
  {
    if a == [] {
      assert a + x == x;
    } else {
      assert (a + x)[1..] == a[1..] + x;
      LeadingDigitsOf(a[1..], x);
    }
  }

  /** Different phrases with non-negative fields are rendered differently. */
  lemma RenderInjective(e1: Phrase, e2: Phrase)
    requires NonNegative(e1) && NonNegative(e2)
    requires Render(e1) == Render(e2)
    ensures e1 == e2
  {
    var r := Render(e1);
    if r[|r| - 1] == 'm' {
      if !e1.UnderAMinute? && !e2.UnderAMinute? {
        SameUnit(e1.m, "m", e2.m, "m");
      }
    } else if r[|r| - 1] == 'd' {
      SameUnit(e1.d, "d", e2.d, "d");
    } else if e1.Hours? && e2.Hours? {
      SameUnit(e1.h, "h", e2.h, "h");
    } else if e1.Hours? {
      DigitsThenMark(NatToString(e1.h), "h", NatToString(e2.d), "d " + IntToString(e2.h) + "h");
    } else if e2.Hours? {
      DigitsThenMark(NatToString(e1.d), "d " + IntToString(e1.h) + "h", NatToString(e2.h), "h");
    } else {
      DaysInjective(e1.d, e1.h, e2.d, e2.h);
    }
  }

  lemma SameUnit(m1: nat, x1: string, m2: nat, x2: string)
    requires x1 != [] && x2 != [] && !IsDigit(x1[0]) && !IsDigit(x2[0])
    requires IntToString(m1) + x1 == IntToString(m2) + x2
    ensures m1 == m2 && x1 == x2
  {
    DigitsThenMark(NatToString(m1), x1, NatToString(m2), x2);
    NatToStringInjective(m1, m2);
  }

  lemma DaysInjective(d1: nat, h1: nat, d2: nat, h2: nat)
    requires h1 != 0 && h2 != 0 && Render(Days(d1, h1)) == Render(Days(d2, h2))
    ensures d1 == d2 && h1 == h2
  {
    var x1, x2 := "d " + IntToString(h1) + "h", "d " + IntToString(h2) + "h";
    assert Render(Days(d1, h1)) == IntToString(d1) + x1;
    assert Render(Days(d2, h2)) == IntToString(d2) + x2;
    SameUnit(d1, x1, d2, x2);
    HoursTailInjective(h1, h2);
  }

  lemma HoursTailInjective(h1: nat, h2: nat)
    requires "d " + IntToString(h1) + "h" == "d " + IntToString(h2) + "h"
    ensures h1 == h2
  {
    var x1, x2 := "d " + NatToString(h1) + "h", "d " + NatToString(h2) + "h";
    assert x1[2..|x1| - 1] == NatToString(h1) && x2[2..|x2| - 1] == NatToString(h2);
    NatToStringInjective(h1, h2);
  }

  /** `human_elapsed`, with the carry corrected. */
  function HumanElapsed(hours: real): (r: string)
    ensures |r| >= 2
    ensures hours < 1.0 / 60.0 <==> r == "<1m"
    ensures r[|r| - 1] == 'm' <==> hours < 1.0
    ensures r[|r| - 1] == 'd' ==> hours >= 48.0
  {
    Render(ElapsedPhrase(hours))
  }

  /** Elapsed times the phrase tells apart get different text. */
  lemma HumanElapsedDistinguishes(a: real, b: real)
    requires ElapsedPhrase(a) != ElapsedPhrase(b)
    ensures HumanElapsed(a) != HumanElapsed(b)
  {
    PhraseNonNegative(a);
    PhraseNonNegative(b);
    if HumanElapsed(a) == HumanElapsed(b) {
      RenderInjective(ElapsedPhrase(a), ElapsedPhrase(b));
    }
  }

  lemma PhraseNonNegative(hours: real)
    ensures NonNegative(ElapsedPhrase(hours))
  {
    if 1.0 / 60.0 <= hours < 1.0 {
      ElapsedMinutes(hours);
    } else if 1.0 <= hours < 48.0 {
      ElapsedHours(hours);
    } else if hours >= 48.0 {
      ElapsedDays(hours);
    }
  }

  lemma DayParts(hours: real)
    requires hours >= 48.0
    ensures var days := (hours / 24.0).Floor;
      days >= 2 && 0.0 <= hours - days as real * 24.0 < 24.0
  {
    var days := (hours / 24.0).Floor;
    assert days as real <= hours / 24.0 < days as real + 1.0;
  }

  /** The source's day count and remainder add up to the rounded hours, but the remainder may be 24. */
  lemma ElapsedAsWrittenDays(hours: real)
    requires hours >= 48.0
    ensures var e := ElapsedAsWritten(hours);
      e.d >= 2 && 0 <= e.h <= 24 && 24 * e.d + e.h == Round(hours)
  {
    DayParts(hours);
    var days := (hours / 24.0).Floor;
    var rest := hours - days as real * 24.0;
    RoundShift(rest, 24 * days);
    assert rest + (24 * days) as real == hours;
  }

  /** The corrected phrase gives whole days and 0 to 23 further hours that add up to the rounded hours. */
  lemma ElapsedDays(hours: real)
    requires hours >= 48.0
    ensures var e := ElapsedPhrase(hours);
      e.d >= 2 && 0 <= e.h <= 23 && 24 * e.d + e.h == Round(hours)
  {
    ElapsedAsWrittenDays(hours);
  }

  /** Below an hour the minutes are rounded, from 1 up to 60. */
  lemma ElapsedMinutes(hours: real)
    requires 1.0 / 60.0 <= hours < 1.0
    ensures var e := ElapsedPhrase(hours);
      1 <= e.m <= 60 && e.m as real - 0.5 <= hours * 60.0 < e.m as real + 0.5
  {
  }

  /** Below two days the hours are rounded, from 1 up to 48. */
  lemma ElapsedHours(hours: real)
    requires 1.0 <= hours < 48.0
    ensures var e := ElapsedPhrase(hours);
      1 <= e.h <= 48 && e.h as real - 0.5 <= hours < e.h as real + 0.5
  {
  }

  /**
   * The same rounding reaches the top of the minutes and hours branches:
   * 59.7 minutes read "60m" and 47.75 h read "48h", in both phrases.
   */
  lemma ElapsedRoundsToBranchTop()
    ensures ElapsedAsWritten(0.995) == Minutes(60) && ElapsedPhrase(0.995) == Minutes(60)
    ensures ElapsedAsWritten(47.75) == Hours(48) && ElapsedPhrase(47.75) == Hours(48)
  {
    assert Round(0.995 * 60.0) == 60;
    assert Round(47.75) == 48;
  }

  /** The finding: 71.5 h is shown by the source as 2 days and 24 hours, and by the corrected version as 3 days. */
  lemma ElapsedAsWrittenCarries()
    ensures ElapsedAsWritten(71.5) == Days(2, 24)
    ensures ElapsedPhrase(71.5) == Days(3, 0)
  {
    assert (71.5 / 24.0).Floor == 2;
    assert Round(71.5 - 48.0) == 24;
  }

  // ---- human_interval ----

  /** `human_interval` for whole hours: "Nd" for a positive multiple of a day, "Nh" otherwise. */
  function HumanInterval(hours: nat): (s: string)
    ensures |s| >= 2
    ensures s[|s| - 1] == 'd' <==> hours >= 24 && hours % 24 == 0
    ensures s[|s| - 1] == 'd' ==> s[..|s| - 1] == NatToString(hours / 24)
    ensures s[|s| - 1] != 'd' ==> s == NatToString(hours) + "h"
  {
    if hours >= 24 && hours % 24 == 0 then NatToString(hours / 24) + "d" else NatToString(hours) + "h"
  }

  /** Different intervals are described differently. */
  lemma HumanIntervalInjective(a: nat, b: nat)
    requires HumanInterval(a) == HumanInterval(b)
    ensures a == b
  {
    var s := HumanInterval(a);
    if s[|s| - 1] == 'd' {
      NatToStringInjective(a / 24, b / 24);
    } else {
      assert s[..|s| - 1] == NatToString(a) && s[..|s| - 1] == NatToString(b);
      NatToStringInjective(a, b);
    }
  }

  /** The two documented examples: 72 h is "3d" and 4 h is "4h". */
  lemma HumanIntervalExamples()
    ensures HumanInterval(72) == "3d"
    ensures HumanInterval(4) == "4h"
  {
  }
}
