/**
 * The label helpers of the results views: the timestamp label, the QC
 * summary line, the task label and the device line.
 */
module ResultsUtils {
  import opened Wrappers
  import opened Text
  import opened Records

  // ---- format_timestamp ----

  /** `split_once('T')`: the text before the first `T` and the text after it ("" without a `T`). */
  function DateAndTime(iso: string): (parts: (string, string))
    ensures 'T' !in parts.0
    ensures iso == parts.0 || iso == parts.0 + "T" + parts.1
    ensures 'T' !in iso ==> parts == (iso, "")
  {
    var k := IndexOf(iso, 'T');
    IndexOfFirst(iso, 'T');
    if k < 0 then (iso, "")
    else
      assert iso == iso[..k] + "T" + iso[k + 1..];
      assert forall j :: 0 <= j < k ==> iso[..k][j] != 'T';
      (iso[..k], iso[k + 1..])
  }

  predicate TimeStop(c: char) {
    c == '.' || c == 'Z' || c == '+'
  }

  /** The first piece of `split(['.', 'Z', '+'])`: the text before the first stop character. */
  function PrimaryTime(segment: string): (r: string)
    ensures |r| <= |segment| && r == segment[..|r|]
    ensures forall i :: 0 <= i < |r| ==> !TimeStop(r[i])
    ensures |r| < |segment| ==> TimeStop(segment[|r|])
  {
    if segment == [] || TimeStop(segment[0]) then []
    else [segment[0]] + PrimaryTime(segment[1..])
  }

  /** The first five characters of the primary time (`chars().take(5)`). */
  function TimeDisplay(segment: string): (r: string)
    ensures |r| <= 5 && |r| <= |segment| && r == segment[..|r|]
    ensures forall i :: 0 <= i < |r| ==> !TimeStop(r[i])
    ensures |r| < 5 ==> r == PrimaryTime(segment)
    ensures r == [] <==> segment == [] || TimeStop(segment[0])
  {
    var p := PrimaryTime(segment);
    if |p| <= 5 then p else p[..5]
  }

  /** The label `format_timestamp` builds for a creation time and a time zone. */
  function TimestampLabel(createdAt: string, tz: string): (line: string)
    ensures var date := DateAndTime(createdAt).0;
      |date| <= |line| && line[..|date|] == date
    ensures tz != [] ==> |line| >= |tz| + 3 && line[|line| - |tz| - 3..] == " · " + tz
  {
    var (date, segment) := DateAndTime(createdAt);
    var time := TimeDisplay(segment);
    var base := if time != [] then date + (" · " + time) else date;
    AppendPrefix(date, " · " + time, |date|);
    if tz != [] then
      var full := base + (" · " + tz);
      AppendPrefix(base, " · " + tz, |date|);
      AppendSuffix(base, " · " + tz);
      full
    else base
  }

  /**
   * The middle of the label: right after the date comes " · " and the shown
   * time when there is one, and nothing otherwise; the label's length is
   * exactly that of its three parts.
   */
  lemma TimestampLabelMiddle(createdAt: string, tz: string)
    ensures var date := DateAndTime(createdAt).0;
      var time := TimeDisplay(DateAndTime(createdAt).1);
      var mid := if time != [] then " · " + time else "";
      var line := TimestampLabel(createdAt, tz);
      && |line| == |date| + |mid| + (if tz != [] then 3 + |tz| else 0)
      && line[|date|..|date| + |mid|] == mid
  {
    var date := DateAndTime(createdAt).0;
    var time := TimeDisplay(DateAndTime(createdAt).1);
    var mid := if time != [] then " · " + time else "";
    var base := date + mid;
    assert base[|date|..] == mid;
    if tz != [] {
      AppendPrefix(base, " · " + tz, |base|);
      assert TimestampLabel(createdAt, tz)[..|base|] == base;
    }
  }

  /**
   * `format_timestamp`: "date · time", or just the date when there is no
   * time, then " · tz" when the record carries a time zone.
   */
  method FormatTimestamp(record: SummaryRecord) returns (line: string)
    ensures line == TimestampLabel(record.createdAt, record.client.tz)
  {
    var (date, segment) := DateAndTime(record.createdAt);
    var time := TimeDisplay(segment);
    if time != [] {
      line := date + " · " + time;
      ConcatAssoc(date, " · ", time);
    } else {
      line := date;
    }
    if record.client.tz != [] {
      ConcatAssoc(line, " · ", record.client.tz);
      line := line + " · ";
      line := line + record.client.tz;
    }
  }

  // ---- qc_summary ----

  const CleanRun := "QC: clean run"

  function FocusPart(n: nat): string {
    "Focus lost ×" + NatToString(n)
  }

  function BlurPart(n: nat): string {
    "Window blur ×" + NatToString(n)
  }

  const MinTrialsPart := "Min trials not met"

  /** The issues present, in the fixed order focus, blur, minimum trials. */
  function QcParts(qc: QualityFlags): (parts: seq<string>)
    ensures parts == [] <==> qc.focusLostEvents == 0 && qc.visibilityBlurEvents == 0 && qc.minTrialsMet
    ensures forall i :: 0 <= i < |parts| ==> |parts[i]| > 0 && parts[i][0] in "FWM"
    ensures qc.focusLostEvents > 0 <==> FocusPart(qc.focusLostEvents) in parts
    ensures qc.visibilityBlurEvents > 0 <==> BlurPart(qc.visibilityBlurEvents) in parts
    ensures !qc.minTrialsMet <==> MinTrialsPart in parts
  {
    (if qc.focusLostEvents > 0 then [FocusPart(qc.focusLostEvents)] else [])
    + (if qc.visibilityBlurEvents > 0 then [BlurPart(qc.visibilityBlurEvents)] else [])
    + (if !qc.minTrialsMet then [MinTrialsPart] else [])
  }

  /** The summary line the parts give. */
  function QcSummaryText(qc: QualityFlags): (r: string)
    ensures |r| > 4 && r[..4] == "QC: "
    ensures QcParts(qc) == [] ==> r[4..] == "clean run"
    ensures QcParts(qc) != [] ==> r[4] == QcParts(qc)[0][0]
    ensures QcParts(qc) != [] ==> r == "QC: " + Join(QcParts(qc), ", ")
  {
    var parts := QcParts(qc);
    if parts == [] then CleanRun
    else
      JoinStartsWithFirst(parts, ", ");
      "QC: " + Join(parts, ", ")
  }

  /** `qc_summary`: collects the present issues, then renders them. */
  method QcSummary(record: SummaryRecord) returns (text: string)
    ensures text == QcSummaryText(record.qc)
  {
    var qc := record.qc;
    var parts: seq<string> := [];
    if qc.focusLostEvents > 0 {
      parts := parts + [FocusPart(qc.focusLostEvents)];
    }
    assert parts == (if qc.focusLostEvents > 0 then [FocusPart(qc.focusLostEvents)] else []);
    if qc.visibilityBlurEvents > 0 {
      parts := parts + [BlurPart(qc.visibilityBlurEvents)];
    }
    if !qc.minTrialsMet {
      parts := parts + [MinTrialsPart];
    }
    assert parts == QcParts(qc);
    if parts == [] {
      text := CleanRun;
    } else {
      text := "QC: " + Join(parts, ", ");
    }
  }

  /** A joined list starts with the first character of its first part. */
  lemma JoinStartsWithFirst(parts: seq<string>, sep: string)
    requires |parts| > 0 && |parts[0]| > 0
    ensures |Join(parts, sep)| > 0 && Join(parts, sep)[0] == parts[0][0]
  {
  }

  /** The run is reported clean exactly when no focus loss, no blur and the minimum trials were met. */
  lemma QcSummaryCleanIff(qc: QualityFlags)
    ensures QcSummaryText(qc) == CleanRun
      <==> qc.focusLostEvents == 0 && qc.visibilityBlurEvents == 0 && qc.minTrialsMet
  {
    var parts := QcParts(qc);
    if parts != [] {
      JoinStartsWithFirst(parts, ", ");
      var text := "QC: " + Join(parts, ", ");
      assert text[4] == parts[0][0];
      assert CleanRun[4] == 'c';
    }
  }

  // ---- task_label ----

  /** `task_label`: the display name of a task identifier. */
  function TaskLabel(task: string): (name: string)
    ensures task == "pvt" ==> name == "Psychomotor Vigilance"
    ensures task == "nback2" ==> name == "2-back working memory"
    ensures name != "Session" <==> task == "pvt" || task == "nback2"
  {
    match task
    case "pvt" => "Psychomotor Vigilance"
    case "nback2" => "2-back working memory"
    case _ => "Session"
  }

  // ---- format_device ----

  /**
   * `format_device`: the trimmed platform and time zone, joined with " · "
   * when both are present; None when both are blank.
   */
  function FormatDevice(platform: string, tz: string): (r: Option<string>)
    ensures r.None? <==> Trim(platform) == [] && Trim(tz) == []
    ensures Trim(platform) != [] && Trim(tz) == [] ==> r == Some(Trim(platform))
    ensures Trim(platform) == [] && Trim(tz) != [] ==> r == Some(Trim(tz))
    ensures Trim(platform) != [] && Trim(tz) != [] ==> r == Some(Trim(platform) + " · " + Trim(tz))
  {
    var p, t := Trim(platform), Trim(tz);
    if p == [] && t == [] then None
    else if t == [] then Some(p)
    else if p == [] then Some(t)
    else Some(p + " · " + t)
  }

  /** Non-empty, and neither end is white space (so it is its own trim). */
  predicate Trimmed(s: string) {
    s != [] && !IsWhitespace(s[0]) && !IsWhitespace(s[|s| - 1])
  }

  /** The device line is never blank and never carries surrounding white space. */
  lemma FormatDeviceTrimmed(platform: string, tz: string)
    ensures FormatDevice(platform, tz).Some? ==> Trimmed(FormatDevice(platform, tz).value)
  {
    var p, t := Trim(platform), Trim(tz);
    if p != [] && t != [] {
      var joined := p + " · " + t;
      assert joined[0] == p[0];
      assert joined[|joined| - 1] == t[|t| - 1];
    }
  }
}
