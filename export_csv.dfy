/**
 * The CSV export: field escaping after section 2 of RFC 4180 and the fixed
 * 21-column `build_csv` table. A reader for the same dialect (fields split
 * at `,`, records closed by a line feed, a quoted field doubling its
 * quotes) recovers every field the writer put down.
 */
module ExportCsv {
  import opened Wrappers
  import opened Text
  import opened Records
  import opened ResultsUtils
  import P = PvtMetrics
  import N = NBackMetrics

  // ---- escape_csv ----

  /** A value that contains a comma, a quote or a line feed must be quoted. */
  predicate NeedsQuotes(v: string) {
    ',' in v || '"' in v || '\n' in v
  }

  /** `replace('"', "\"\"")`: every quote doubled. */
  function DoubleQuotes(v: string): (r: string)
    ensures |r| >= |v|
  {
    if v == [] then []
    else (if v[0] == '"' then "\"\"" else [v[0]]) + DoubleQuotes(v[1..])
  }

  /**
   * `escape_csv`: the empty value stays empty, a value that needs no quotes
   * is copied, any other value is quoted with its quotes doubled.
   */
  function EscapeCsv(v: string): (r: string)
    ensures v == [] ==> r == []
    ensures !NeedsQuotes(v) ==> r == v
    ensures NeedsQuotes(v) ==> |r| >= 2 && r[0] == '"' && r[|r| - 1] == '"'
  {
    if v == [] then []
    else if NeedsQuotes(v) then "\"" + DoubleQuotes(v) + "\""
    else v
  }

  // ---- a reader for the same dialect ----

  predicate FieldEnd(c: char) {
    c == ',' || c == '\n'
  }

  /** The rest of a quoted field after its opening quote: `""` reads as `"`, a lone `"` closes it. */
  function ParseQuoted(s: string): (r: Option<(string, string)>)
    ensures r.Some? ==> |r.value.1| < |s|
  {
    if s == [] then None
    else if s[0] == '"' then
      if |s| > 1 && s[1] == '"' then
        match ParseQuoted(s[2..])
        case None => None
        case Some((v, rest)) => Some(("\"" + v, rest))
      else Some(([], s[1..]))
    else
      match ParseQuoted(s[1..])
      case None => None
      case Some((v, rest)) => Some(([s[0]] + v, rest))
  }

  /** An unquoted field: the text up to the next comma or line feed. */
  function ParseBare(s: string): (r: (string, string))
    ensures r.0 + r.1 == s
  {
    if s == [] || FieldEnd(s[0]) then ([], s)
    else
      var r := ParseBare(s[1..]);
      ([s[0]] + r.0, r.1)
  }

  /** One field and the text after it. */
  function ParseField(s: string): (r: Option<(string, string)>)
    ensures r.Some? ==> |r.value.1| <= |s|
  {
    if s != [] && s[0] == '"' then ParseQuoted(s[1..]) else Some(ParseBare(s))
  }

  /** One record: fields separated by commas and closed by a line feed; also the text after it. */
  function ParseRow(s: string): (r: Option<(seq<string>, string)>)
    ensures r.Some? ==> |r.value.1| < |s| && |r.value.0| >= 1
    decreases |s|
  {
    match ParseField(s)
    case None => None
    case Some((v, rest)) =>
      if rest == [] then None
      else if rest[0] == '\n' then Some(([v], rest[1..]))
      else if rest[0] == ',' then
        match ParseRow(rest[1..])
        case None => None
        case Some((vs, after)) => Some(([v] + vs, after))
      else None
  }

  /** A whole document: records until the text runs out. */
  function ParseDocument(s: string): Option<seq<seq<string>>>
    decreases |s|
  {
    if s == [] then Some([])
    else
      match ParseRow(s)
      case None => None
      case Some((row, rest)) =>
        match ParseDocument(rest)
        case None => None
        case Some(rows) => Some([row] + rows)
  }

  // ---- writing records ----

  function EscapeAll(fields: seq<string>): (r: seq<string>)
    ensures |r| == |fields|
  {
    if fields == [] then [] else [EscapeCsv(fields[0])] + EscapeAll(fields[1..])
  }

  /** One record: the escaped fields joined by commas, then a line feed. */
  function Row(fields: seq<string>): string {
    Join(EscapeAll(fields), ",") + "\n"
  }

  function Document(rows: seq<seq<string>>): string {
    if rows == [] then [] else Row(rows[0]) + Document(rows[1..])
  }

  lemma {:induction false} DocumentAppend(rows: seq<seq<string>>, row: seq<string>)
    ensures Document(rows + [row]) == Document(rows) + Row(row)
  {
    if rows == [] {
      assert rows + [row] == [row];
    } else {
      assert (rows + [row])[1..] == rows[1..] + [row];
      DocumentAppend(rows[1..], row);
    }
  }

  // ---- round trip ----

  /** A doubled quote inside a quoted field reads as one quote. */
  lemma ParseDoubledQuote(rest: string)
    ensures ParseQuoted("\"\"" + rest) ==
      match ParseQuoted(rest)
      case None => None
      case Some((v, after)) => Some(("\"" + v, after))
  {
    var s := "\"\"" + rest;
    assert s[0] == '"' && s[1] == '"' && s[2..] == rest;
  }

  /** Any other character inside a quoted field reads as itself. */
  lemma ParsePlainChar(c: char, rest: string)
    requires c != '"'
    ensures ParseQuoted([c] + rest) ==
      match ParseQuoted(rest)
      case None => None
      case Some((v, after)) => Some(([c] + v, after))
  {
    var s := [c] + rest;
    assert s[0] == c && s[1..] == rest;
  }

  lemma {:induction false} QuotedRoundTrip(v: string, t: string)
    requires t == [] || t[0] != '"'
    ensures ParseQuoted(DoubleQuotes(v) + "\"" + t) == Some((v, t))
  {
    if v == [] {
      assert DoubleQuotes(v) + "\"" + t == "\"" + t;
    } else {
      var doubled := DoubleQuotes(v[1..]);
      var rest := doubled + "\"" + t;
      QuotedRoundTrip(v[1..], t);
      var head := if v[0] == '"' then "\"\"" else [v[0]];
      assert DoubleQuotes(v) == head + doubled;
      ConcatAssoc(head, doubled, "\"");
      ConcatAssoc(head, doubled + "\"", t);
      if v[0] == '"' {
        ParseDoubledQuote(rest);
      } else {
        ParsePlainChar(v[0], rest);
      }
      assert [v[0]] + v[1..] == v;
    }
  }

  lemma {:induction false} BareRoundTrip(v: string, t: string)
    requires ',' !in v && '\n' !in v
    requires t == [] || FieldEnd(t[0])
    ensures ParseBare(v + t) == (v, t)
  {
    if v != [] {
      var s := v + t;
      assert s[0] == v[0] && !FieldEnd(s[0]);
      assert s[1..] == v[1..] + t;
      BareRoundTrip(v[1..], t);
      assert [v[0]] + v[1..] == v;
    } else {
      assert v + t == t;
    }
  }

  /** A field written by `EscapeCsv` and followed by a comma, a line feed or nothing reads back as itself. */
  lemma FieldRoundTrip(v: string, t: string)
    requires t == [] || FieldEnd(t[0])
    ensures ParseField(EscapeCsv(v) + t) == Some((v, t))
  {
    if v == [] {
      assert EscapeCsv(v) + t == t;
      BareRoundTrip(v, t);
    } else if NeedsQuotes(v) {
      var s := EscapeCsv(v) + t;
      assert s == "\"" + (DoubleQuotes(v) + "\"" + t);
      assert s[1..] == DoubleQuotes(v) + "\"" + t;
      QuotedRoundTrip(v, t);
    } else {
      assert (v + t)[0] == v[0];
      BareRoundTrip(v, t);
    }
  }

  lemma {:induction false} RowRoundTrip(fields: seq<string>, t: string)
    requires |fields| >= 1
    ensures ParseRow(Row(fields) + t) == Some((fields, t))
  {
    var escaped := EscapeAll(fields);
    if |fields| == 1 {
      assert escaped == [EscapeCsv(fields[0])];
      assert Row(fields) + t == EscapeCsv(fields[0]) + ("\n" + t);
      FieldRoundTrip(fields[0], "\n" + t);
      assert ("\n" + t)[1..] == t;
      assert [fields[0]] == fields;
    } else {
      var tail := fields[1..];
      assert escaped == [EscapeCsv(fields[0])] + EscapeAll(tail);
      JoinCons(EscapeCsv(fields[0]), EscapeAll(tail), ",");
      var after := Row(tail) + t;
      assert Row(fields) + t == EscapeCsv(fields[0]) + ("," + after);
      FieldRoundTrip(fields[0], "," + after);
      assert ("," + after)[1..] == after;
      RowRoundTrip(tail, t);
      assert [fields[0]] + tail == fields;
    }
  }

  /** Every record of a document written by `Document` reads back, in order. */
  lemma {:induction false} DocumentRoundTrip(rows: seq<seq<string>>)
    requires forall i :: 0 <= i < |rows| ==> |rows[i]| >= 1
    ensures ParseDocument(Document(rows)) == Some(rows)
  {
    if rows != [] {
      var rest := Document(rows[1..]);
      RowRoundTrip(rows[0], rest);
      assert Row(rows[0]) + rest != [];
      DocumentRoundTrip(rows[1..]);
      assert [rows[0]] + rows[1..] == rows;
    }
  }

  // ---- build_csv ----

  /** The fixed schema: 4 core, 5 PVT, 7 N-back and 5 general columns. */
  const Header: seq<string> := [
    "task", "created_at", "platform", "tz",
    "median_rt_ms", "mean_rt_ms", "lapses_500ms", "false_starts", "slope_ms_per_min",
    "accuracy", "d_prime", "criterion", "hits", "misses", "false_alarms", "correct_rejections",
    "notes", "qc_summary", "qc_focus_lost", "qc_visibility_blur", "qc_min_trials_met"]

  function Blanks(n: nat): (r: seq<string>)
    ensures |r| == n && forall i :: 0 <= i < n ==> r[i] == []
  {
    if n == 0 then [] else [[]] + Blanks(n - 1)
  }

  /** `bool::to_string`. */
  function BoolText(b: bool): string {
    if b then "true" else "false"
  }

  /**
   * The five PVT columns, filled only for a "pvt" record whose metrics
   * parse. `real` values are rendered by `show` (Rust's `f64` Display).
   */
  function PvtColumns(record: SummaryRecord, show: real -> string): (cols: seq<string>)
    ensures |cols| == 5
    ensures record.task == "pvt" && record.pvt.Some? ==>
      var m := record.pvt.value;
      cols == [show(m.medianRtMs), show(m.meanRtMs), NatToString(m.lapsesGe500Ms),
               NatToString(m.falseStarts), show(m.timeOnTaskSlopeMsPerMin)]
    ensures record.task != "pvt" || record.pvt.None? ==> forall i :: 0 <= i < 5 ==> cols[i] == []
  {
    if record.task == "pvt" && record.pvt.Some? then
      var m := record.pvt.value;
      [show(m.medianRtMs), show(m.meanRtMs), NatToString(m.lapsesGe500Ms),
       NatToString(m.falseStarts), show(m.timeOnTaskSlopeMsPerMin)]
    else Blanks(5)
  }

  /** The seven N-back columns, filled only for an "nback2" record whose metrics parse. */
  function NBackColumns(record: SummaryRecord, show: real -> string): (cols: seq<string>)
    ensures |cols| == 7
    ensures record.task == "nback2" && record.nback.Some? ==>
      var m := record.nback.value;
      cols == [show(m.accuracy), show(m.dPrime), show(m.criterion), NatToString(m.hits),
               NatToString(m.misses), NatToString(m.falseAlarms), NatToString(m.correctRejections)]
    ensures record.task != "nback2" || record.nback.None? ==> forall i :: 0 <= i < 7 ==> cols[i] == []
  {
    if record.task == "nback2" && record.nback.Some? then
      var m := record.nback.value;
      [show(m.accuracy), show(m.dPrime), show(m.criterion), NatToString(m.hits),
       NatToString(m.misses), NatToString(m.falseAlarms), NatToString(m.correctRejections)]
    else Blanks(7)
  }

  /** The five general columns: notes, the QC line and the three QC values. */
  function TailColumns(record: SummaryRecord): (cols: seq<string>)
    ensures |cols| == 5
  {
    [record.notes.GetOr([]), QcSummaryText(record.qc), NatToString(record.qc.focusLostEvents),
     NatToString(record.qc.visibilityBlurEvents), BoolText(record.qc.minTrialsMet)]
  }

  /** The 21 unescaped fields of one record, in header order. */
  function CsvFields(record: SummaryRecord, show: real -> string): (fields: seq<string>)
    ensures |fields| == |Header| == 21
    ensures fields[..4] == [record.task, record.createdAt, record.client.platform, record.client.tz]
    ensures fields[4..9] == PvtColumns(record, show)
    ensures fields[9..16] == NBackColumns(record, show)
    ensures fields[16..] == TailColumns(record)
  {
    var fields := [record.task, record.createdAt, record.client.platform, record.client.tz]
      + PvtColumns(record, show) + NBackColumns(record, show) + TailColumns(record);
    assert fields[4..9] == PvtColumns(record, show);
    assert fields[9..16] == NBackColumns(record, show);
    fields
  }

  /** The fields of a record, as a function of the record. */
  function FieldsOf(show: real -> string): SummaryRecord -> seq<string> {
    record => CsvFields(record, show)
  }

  /** The table as rows of fields: the header, then one row per record in input order. */
  function CsvTable(records: seq<SummaryRecord>, show: real -> string): (rows: seq<seq<string>>)
    ensures |rows| == |records| + 1 && rows[0] == Header
  {
    [Header] + Map(FieldsOf(show), records)
  }

  /** Row `i + 1` of the table holds the fields of record `i`. */
  lemma TableRows(records: seq<SummaryRecord>, show: real -> string)
    ensures forall i :: 0 <= i < |records| ==> CsvTable(records, show)[i + 1] == CsvFields(records[i], show)
  {
    MapAt(FieldsOf(show), records);
  }

  /** The document of the table is the header line followed by the document of the record rows. */
  lemma TableDocument(records: seq<SummaryRecord>, show: real -> string)
    ensures Document(CsvTable(records, show)) == Row(Header) + Document(Map(FieldsOf(show), records))
  {
    var rows := CsvTable(records, show);
    assert rows[1..] == Map(FieldsOf(show), records);
  }

  /** The fields of one record, pushed column group by column group as `build_csv` does. */
  method RecordFields(record: SummaryRecord, show: real -> string) returns (row: seq<string>)
    ensures row == CsvFields(record, show)
  {
    row := [record.task, record.createdAt, record.client.platform, record.client.tz];
    row := row + PvtColumns(record, show);
    row := row + NBackColumns(record, show);
    var qc := QcSummary(record);
    row := row + [record.notes.GetOr([]), qc, NatToString(record.qc.focusLostEvents),
                  NatToString(record.qc.visibilityBlurEvents), BoolText(record.qc.minTrialsMet)];
  }

  /** The loop of `build_csv`: each record's line appended, in order, to what is already written. */
  method AppendRecords(prefix: string, records: seq<SummaryRecord>, show: real -> string) returns (out: string)
    ensures out == prefix + Document(Map(FieldsOf(show), records))
  {
    out := prefix;
    var i := 0;
    assert records[..i] == [];
    while i < |records|
      invariant 0 <= i <= |records|
      invariant out == prefix + Document(Map(FieldsOf(show), records[..i]))
    {
      var row := RecordFields(records[i], show);
      MapStep(FieldsOf(show), records, i);
      DocumentAppend(Map(FieldsOf(show), records[..i]), row);
      ConcatAssoc(prefix, Document(Map(FieldsOf(show), records[..i])), Row(row));
      out := out + Row(row);
      i := i + 1;
    }
    assert records[..i] == records;
  }

  /**
   * `build_csv`: the escaped header line, then for each record its fields,
   * escaped, joined by commas and closed by a line feed.
   */
  method BuildCsv(records: seq<SummaryRecord>, show: real -> string) returns (out: string)
    ensures out == Document(CsvTable(records, show))
  {
    out := Row(Header);
    out := AppendRecords(out, records, show);
    TableDocument(records, show);
  }

  lemma TableRowsWide(records: seq<SummaryRecord>, show: real -> string)
    ensures forall i :: 0 <= i < |CsvTable(records, show)| ==> |CsvTable(records, show)[i]| == 21
  {
    var rows := CsvTable(records, show);
    TableRows(records, show);
    forall i | 0 <= i < |rows|
      ensures |rows[i]| == 21
    {
      if i > 0 {
        assert rows[i] == CsvFields(records[i - 1], show);
      }
    }
  }

  /** Reading the export back gives the header and, for each record in order, its 21 fields. */
  lemma CsvRoundTrip(records: seq<SummaryRecord>, show: real -> string)
    ensures ParseDocument(Document(CsvTable(records, show))) == Some(CsvTable(records, show))
    ensures forall i :: 0 <= i < |CsvTable(records, show)| ==> |CsvTable(records, show)[i]| == 21
  {
    TableRowsWide(records, show);
    DocumentRoundTrip(CsvTable(records, show));
  }

  /** Every record of the export, the last included, ends in a line feed. */
  lemma {:induction false} DocumentEndsInLineFeed(rows: seq<seq<string>>)
    requires rows != []
    ensures var d := Document(rows); |d| > 0 && d[|d| - 1] == '\n'
  {
    if |rows| > 1 {
      DocumentEndsInLineFeed(rows[1..]);
    }
  }
}
