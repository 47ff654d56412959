/**
 * The translation completeness guard: the message identifiers a Fluent
 * file defines, the identifiers the Rust sources pass to `t!("…")`, and the
 * two set differences the guard reports. The source tree walk is left to
 * the caller, which hands over file contents.
 */
module I18nCompleteness {
  import opened Wrappers
  import opened Text

  /** `valid_key_char`: a lower-case ASCII letter, a digit or `-`. */
  predicate ValidKeyChar(c: char) {
    'a' <= c <= 'z' || '0' <= c <= '9' || c == '-'
  }

  predicate ValidKey(k: string) {
    forall i :: 0 <= i < |k| ==> ValidKeyChar(k[i])
  }

  // ---- parse_ftl_keys ----

  /**
   * The message identifier one line defines: blank lines, comments and
   * terms define none; otherwise the trimmed text before the first `=`,
   * when it is a non-empty run of valid key characters.
   */
  function FtlLineKey(line: string): (r: Option<string>)
    ensures r.Some? ==> r.value != [] && ValidKey(r.value)
    ensures var t := Trim(line); (t == [] || t[0] == '#' || t[0] == '-') ==> r.None?
    ensures r.Some? ==> var t := Trim(line); IndexOf(t, '=') >= 0 && r.value == Trim(t[..IndexOf(t, '=')])
  {
    var t := Trim(line);
    if t == [] || t[0] == '#' || t[0] == '-' then None
    else
      var eq := IndexOf(t, '=');
      if eq < 0 then None
      else
        var id := Trim(t[..eq]);
        if ValidKey(id) && id != [] then Some(id) else None
  }

  /** A line `id=value` defines `id`, whatever the value, when `id` is a message identifier. */
  lemma DefinitionLine(id: string, value: string)
    requires id != [] && ValidKey(id) && id[0] != '-'
    ensures FtlLineKey(id + "=" + value) == Some(id)
  {
    var line := id + "=" + value;
    var head := id + "=";
    assert line == head + value;
    assert !IsWhitespace(line[0]);
    assert TrimStart(line) == line;
    TrimEndAppend(head, value);
    var t := Trim(line);
    assert t == head + TrimEnd(value);
    assert t[|id|] == '=';
    assert forall j :: 0 <= j < |id| ==> t[j] == id[j] && ValidKeyChar(id[j]);
    IndexOfAt(t, '=', |id|);
    assert t[..|id|] == id;
    TrimOfTrimmed(id);
  }

  /** The identifier an optional result holds, as a set. */
  function AsSet(key: Option<string>): set<string> {
    if key.Some? then {key.value} else {}
  }

  /** The identifiers `key` finds in the lines, one line at a time. */
  function Collect(lines: seq<string>, key: string -> Option<string>): set<string> {
    if lines == [] then {}
    else
      Collect(lines[..|lines| - 1], key) + AsSet(key(lines[|lines| - 1]))
  }

  lemma {:induction false} CollectIff(lines: seq<string>, key: string -> Option<string>, k: string)
    ensures k in Collect(lines, key) <==> exists i :: 0 <= i < |lines| && key(lines[i]) == Some(k)
  {
    if lines != [] {
      var init := lines[..|lines| - 1];
      CollectIff(init, key, k);
      if exists i :: 0 <= i < |init| && key(init[i]) == Some(k) {
        var i :| 0 <= i < |init| && key(init[i]) == Some(k);
        assert lines[i] == init[i];
      }
    }
  }

  lemma CollectStep(lines: seq<string>, key: string -> Option<string>, n: nat)
    requires n < |lines|
    ensures Collect(lines[..n + 1], key) == Collect(lines[..n], key) + AsSet(key(lines[n]))
  {
    assert lines[..n + 1][..n] == lines[..n];
  }

  /** The identifiers the lines define: `parse_ftl_keys` as a function. */
  function FtlKeysOf(lines: seq<string>): set<string> {
    Collect(lines, FtlLineKey)
  }

  lemma FtlKeysStep(lines: seq<string>, n: nat)
    requires n < |lines|
    ensures FtlKeysOf(lines[..n + 1]) == FtlKeysOf(lines[..n]) + AsSet(FtlLineKey(lines[n]))
  {
    CollectStep(lines, FtlLineKey, n);
  }

  /** An identifier is collected exactly when some line defines it. */
  lemma FtlKeysOfIff(lines: seq<string>, k: string)
    ensures k in FtlKeysOf(lines) <==> exists i :: 0 <= i < |lines| && FtlLineKey(lines[i]) == Some(k)
  {
    CollectIff(lines, FtlLineKey, k);
  }

  /**
   * A line defines `k` as a message: after trimming it is not blank, not a
   * comment and not a term, it has an `=`, and the trimmed text before the
   * first `=` is `k`, a non-empty run of valid key characters.
   */
  ghost predicate DefinesMessage(line: string, k: string) {
    var t := Trim(line);
    && t != [] && t[0] != '#' && t[0] != '-'
    && IndexOf(t, '=') >= 0
    && Trim(t[..IndexOf(t, '=')]) == k
    && k != [] && ValidKey(k)
  }

  /** `parse_ftl_keys` collects exactly the identifiers some line defines as a message. */
  lemma FtlKeysOfDefined(lines: seq<string>, k: string)
    ensures k in FtlKeysOf(lines) <==> exists i :: 0 <= i < |lines| && DefinesMessage(lines[i], k)
  {
    FtlKeysOfIff(lines, k);
    assert forall i :: 0 <= i < |lines| ==> (FtlLineKey(lines[i]) == Some(k) <==> DefinesMessage(lines[i], k));
  }

  /** Every collected identifier is a non-empty run of valid key characters. */
  lemma FtlKeysValid(lines: seq<string>)
    ensures forall k :: k in FtlKeysOf(lines) ==> k != [] && ValidKey(k)
  {
    forall k | k in FtlKeysOf(lines)
      ensures k != [] && ValidKey(k)
    {
      FtlKeysOfIff(lines, k);
    }
  }

  /** `parse_ftl_keys`: every line in turn, its identifier added to the set. */
  method ParseFtlKeys(content: string) returns (keys: set<string>)
    ensures keys == FtlKeysOf(Lines(content))
  {
    var lines := Lines(content);
    keys := {};
    var n := 0;
    while n < |lines|
      invariant 0 <= n <= |lines|
      invariant keys == FtlKeysOf(lines[..n])
    {
      FtlKeysStep(lines, n);
      var key := FtlLineKey(lines[n]);
      if key.Some? {
        keys := keys + {key.value};
      }
      n := n + 1;
    }
    assert lines[..n] == lines;
  }

  // ---- the t!(" literal scanner ----

  /** `t!("` starts at `p`. */
  predicate NeedleAt(s: string, p: int) {
    0 <= p && p + 4 <= |s| && s[p] == 't' && s[p + 1] == '!' && s[p + 2] == '(' && s[p + 3] == '"'
  }

  /** The first `t!("` at or after `i`, or -1. */
  function FindNeedle(s: string, i: nat): (p: int)
    ensures p == -1 || (i <= p && NeedleAt(s, p))
    decreases |s| - i
  {
    if i + 4 > |s| then -1
    else if NeedleAt(s, i) then i
    else FindNeedle(s, i + 1)
  }

  /** The search finds the first `t!("` at or after `i`, and -1 only when there is none. */
  lemma {:induction false} FindNeedleFirst(s: string, i: nat)
    ensures FindNeedle(s, i) == -1 ==> forall q :: i <= q ==> !NeedleAt(s, q)
    ensures FindNeedle(s, i) >= 0 ==> forall q :: i <= q < FindNeedle(s, i) ==> !NeedleAt(s, q)
    decreases |s| - i
  {
    if i + 4 <= |s| && !NeedleAt(s, i) {
      FindNeedleFirst(s, i + 1);
    }
  }

  /**
   * Where the literal that starts at `j` ends: the index of the first `"`
   * not escaped by a backslash, or an index at or past the end (one past
   * it when the text ends in a backslash) when it is not closed.
   */
  function LiteralEnd(s: string, j: nat): (e: nat)
    requires j <= |s| + 1
    ensures j <= e <= |s| + 1
    ensures e < |s| ==> s[e] == '"'
    decreases |s| + 1 - j
  {
    if j >= |s| then j
    else if s[j] == '\\' then LiteralEnd(s, j + 2)
    else if s[j] == '"' then j
    else LiteralEnd(s, j + 1)
  }

  /**
   * The identifiers the literals from `i` on yield, as the source's scan
   * does; `None` where the source panics: after a literal that is never
   * closed, the next search starts past the end of the text, and slicing
   * there fails.
   */
  function ScanAsWritten(s: string, i: nat): (r: Option<set<string>>)
    ensures i > |s| ==> r.None?
    ensures i <= |s| && r.Some? ==> r.value == Scan(s, i)
    decreases |s| + 2 - i
  {
    if i > |s| then None
    else
      var p := FindNeedle(s, i);
      if p < 0 then Some({})
      else
        var e := LiteralEnd(s, p + 4);
        var here: set<string> := if e < |s| && ValidKey(s[p + 4..e]) then {s[p + 4..e]} else {};
        match ScanAsWritten(s, e + 1)
        case None => None
        case Some(rest) => Some(here + rest)
  }

  /** The corrected scan: the same, but a literal that is never closed ends the scan. */
  function Scan(s: string, i: nat): (r: set<string>)
    requires i <= |s|
    ensures FindNeedle(s, i) < 0 ==> r == {}
    decreases |s| - i
  {
    var p := FindNeedle(s, i);
    if p < 0 then {}
    else
      var e := LiteralEnd(s, p + 4);
      if e >= |s| then {}
      else LiteralKeys(s, p + 4, e) + Scan(s, e + 1)
  }

  /** What one closed literal `s[start..e]` contributes: itself when it is a valid identifier. */
  function LiteralKeys(s: string, start: nat, e: nat): set<string>
    requires start <= e <= |s|
  {
    if ValidKey(s[start..e]) then {s[start..e]} else {}
  }

  /** One literal of the scan: what it yields joins what was found before it. */
  lemma ScanLiteral(s: string, i: nat, p: int, e: nat, found: set<string>, found': set<string>, whole: set<string>)
    requires i <= |s| && p == FindNeedle(s, i) && p >= 0 && e == LiteralEnd(s, p + 4) && e < |s|
    requires found + Scan(s, i) == whole
    requires found' == found + LiteralKeys(s, p + 4, e)
    ensures found' + Scan(s, e + 1) == whole
  {
    ScanStep(s, i, p, e);
    Regroup(found, LiteralKeys(s, p + 4, e), Scan(s, e + 1), whole);
  }

  lemma ScanStep(s: string, i: nat, p: int, e: nat)
    requires i <= |s| && p == FindNeedle(s, i) && p >= 0 && e == LiteralEnd(s, p + 4) && e < |s|
    ensures Scan(s, i) == LiteralKeys(s, p + 4, e) + Scan(s, e + 1)
  {
    var here := LiteralKeys(s, p + 4, e);
    var rest := Scan(s, e + 1);
    assert Scan(s, i) == here + rest;
  }

  lemma Regroup(a: set<string>, b: set<string>, c: set<string>, whole: set<string>)
    requires a + (b + c) == whole
    ensures (a + b) + c == whole
  {
  }

  /** The finding: a file ending in an unclosed `t!("` makes the source's scan panic. */
  lemma ScanAsWrittenPanics()
    ensures ScanAsWritten("t!(\"ab", 0).None?
    ensures Scan("t!(\"ab", 0) == {}
  {
    var s := "t!(\"ab";
    assert NeedleAt(s, 0);
    assert LiteralEnd(s, 4) == 6 by {
      assert LiteralEnd(s, 6) == 6;
      assert LiteralEnd(s, 5) == LiteralEnd(s, 6);
    }
    assert ScanAsWritten(s, 7).None?;
  }

  /** `t!("` followed by the identifier `k` and a closing quote appears in the text. */
  predicate ReferencedAt(s: string, k: string, p: int) {
    NeedleAt(s, p) && p + 4 + |k| < |s| && s[p + 4..p + 4 + |k|] == k && s[p + 4 + |k|] == '"'
  }

  /** Every identifier the scan reports is valid and appears as a `t!("…"` literal in the text. */
  lemma {:induction false} ScanSound(s: string, i: nat, k: string)
    requires i <= |s| && k in Scan(s, i)
    ensures ValidKey(k) && exists p :: i <= p && ReferencedAt(s, k, p)
    decreases |s| - i
  {
    var p := FindNeedle(s, i);
    var e := LiteralEnd(s, p + 4);
    if ValidKey(s[p + 4..e]) && k == s[p + 4..e] {
      assert ReferencedAt(s, k, p);
    } else {
      ScanSound(s, e + 1, k);
    }
  }

  /** The inner loop of the scanner: step to the next quote not escaped by a backslash. */
  method FindClosingQuote(content: string, start: nat) returns (j: nat)
    requires start <= |content|
    ensures j == LiteralEnd(content, start)
  {
    j := start;
    while j < |content|
      invariant start <= j <= |content| + 1
      invariant LiteralEnd(content, j) == LiteralEnd(content, start)
      decreases |content| + 1 - j
    {
      if content[j] == '\\' {
        j := j + 2;
        continue;
      }
      if content[j] == '"' {
        return;
      }
      j := j + 1;
    }
  }

  /**
   * The scanner of `extract_translation_keys_from_source` for one file:
   * search for `t!("`, then step through the literal, skipping the byte
   * after each backslash, up to the closing quote. A literal that is never
   * closed ends the scan (where the source panics, see `ScanAsWritten`).
   */
  method ScanSource(content: string) returns (found: set<string>)
    ensures found == Scan(content, 0)
  {
    found := {};
    var i: nat := 0;
    ghost var whole := Scan(content, 0);
    while true
      invariant 0 <= i <= |content|
      invariant found + Scan(content, i) == whole
      decreases |content| - i
    {
      var pos := FindNeedle(content, i);
      if pos < 0 {
        break;
      }
      var start := pos + 4;
      var j := FindClosingQuote(content, start);
      if j >= |content| {
        break;
      }
      var key := content[start..j];
      ghost var before := found;
      if ValidKey(key) {
        found := found + {key};
      }
      ScanLiteral(content, i, pos, j, before, found, whole);
      i := j + 1;
    }
  }

  // ---- the reported differences ----

  /**
   * The filter both steps of the guard apply: the identifiers of `required`
   * that `present` lacks (referenced keys against the fallback, then the
   * fallback's keys against each locale).
   */
  method MissingFrom(required: set<string>, present: set<string>) returns (missing: set<string>)
    ensures missing == required - present
  {
    missing := {};
    var todo := required;
    while todo != {}
      invariant todo <= required
      invariant missing == (required - todo) - present
      decreases |todo|
    {
      var k :| k in todo;
      if k !in present {
        missing := missing + {k};
      }
      todo := todo - {k};
    }
  }

  /** How the guard ends. */
  datatype Outcome =
    | NoFallbackKeys
    | MissingFromFallback(keys: set<string>)
    | LocalesIncomplete(missing: map<string, set<string>>)
    | Complete

  /** The locale's file defines every identifier of the fallback. */
  predicate Covers(fallback: set<string>, content: string) {
    fallback <= FtlKeysOf(Lines(content))
  }

  /** The identifiers of the fallback the locale's file does not define. */
  function LocaleMissing(fallback: set<string>, content: string): set<string> {
    fallback - FtlKeysOf(Lines(content))
  }

  /** A locale misses nothing exactly when its file covers the fallback. */
  lemma LocaleMissingEmptyIff(fallback: set<string>, content: string)
    ensures LocaleMissing(fallback, content) == {} <==> Covers(fallback, content)
  {
    if LocaleMissing(fallback, content) != {} {
      var k :| k in LocaleMissing(fallback, content);
    }
  }

  /** The identifiers of the fallback one locale's file lacks: its definitions parsed, then the difference. */
  method LocaleMissingKeys(fallbackKeys: set<string>, content: string) returns (missing: set<string>)
    ensures missing == LocaleMissing(fallbackKeys, content)
  {
    var keys := ParseFtlKeys(content);
    missing := MissingFrom(fallbackKeys, keys);
  }

  /** The identifiers the source files use. */
  function ReferencedKeys(sources: seq<string>): set<string> {
    if sources == [] then {} else ReferencedKeys(sources[..|sources| - 1]) + Scan(sources[|sources| - 1], 0)
  }

  /** `extract_translation_keys_from_source` over the contents of the source files. */
  method ExtractTranslationKeys(sources: seq<string>) returns (referenced: set<string>)
    ensures referenced == ReferencedKeys(sources)
  {
    referenced := {};
    var f := 0;
    while f < |sources|
      invariant 0 <= f <= |sources|
      invariant referenced == ReferencedKeys(sources[..f])
    {
      assert sources[..f + 1][..f] == sources[..f];
      var found := ScanSource(sources[f]);
      referenced := referenced + found;
      f := f + 1;
    }
    assert sources[..f] == sources;
  }

  /**
   * `perLocale` names exactly the locales whose file lacks identifiers of
   * the fallback, each with the identifiers one file of that name lacks.
   */
  predicate ReportsMissing(fallback: set<string>, locales: seq<(string, string)>, perLocale: map<string, set<string>>) {
    (forall loc :: loc in perLocale ==>
      (perLocale[loc] != {}
       && exists m :: 0 <= m < |locales| && locales[m].0 == loc && perLocale[loc] == LocaleMissing(fallback, locales[m].1)))
    && (forall m :: 0 <= m < |locales| && LocaleMissing(fallback, locales[m].1) != {} ==> locales[m].0 in perLocale)
  }

  /** `perLocale` reports the locales as `ReportsMissing` says, given each locale's missing identifiers. */
  predicate Reports(locales: seq<(string, string)>, misses: seq<set<string>>, perLocale: map<string, set<string>>)
    requires |misses| == |locales|
  {
    (forall loc :: loc in perLocale ==>
      (perLocale[loc] != {} && exists m :: 0 <= m < |locales| && locales[m].0 == loc && perLocale[loc] == misses[m]))
    && (forall m :: 0 <= m < |locales| && misses[m] != {} ==> locales[m].0 in perLocale)
  }

  lemma ReportsStep(locales: seq<(string, string)>, misses: seq<set<string>>, perLocale: map<string, set<string>>,
                    locale: (string, string), missing: set<string>)
    requires |misses| == |locales| && Reports(locales, misses, perLocale)
    ensures Reports(locales + [locale], misses + [missing], if missing != {} then perLocale[locale.0 := missing] else perLocale)
  {
    var locales', misses' := locales + [locale], misses + [missing];
    var perLocale' := if missing != {} then perLocale[locale.0 := missing] else perLocale;
    forall loc | loc in perLocale'
      ensures perLocale'[loc] != {} && exists m :: 0 <= m < |locales'| && locales'[m].0 == loc && perLocale'[loc] == misses'[m]
    {
      if missing != {} && loc == locale.0 {
        assert locales'[|locales|].0 == loc && misses'[|locales|] == missing;
      } else {
        var m :| 0 <= m < |locales| && locales[m].0 == loc && perLocale[loc] == misses[m];
        assert locales'[m].0 == loc && misses'[m] == misses[m];
      }
    }
  }

  lemma ReportsAll(fallback: set<string>, locales: seq<(string, string)>, misses: seq<set<string>>, perLocale: map<string, set<string>>)
    requires |misses| == |locales| && Reports(locales, misses, perLocale)
    requires forall m :: 0 <= m < |locales| ==> misses[m] == LocaleMissing(fallback, locales[m].1)
    ensures ReportsMissing(fallback, locales, perLocale)
    ensures perLocale == map[] <==> forall m :: 0 <= m < |locales| ==> LocaleMissing(fallback, locales[m].1) == {}
  {
    if perLocale != map[] {
      var loc :| loc in perLocale;
      var m :| 0 <= m < |locales| && locales[m].0 == loc && perLocale[loc] == misses[m];
      assert LocaleMissing(fallback, locales[m].1) != {};
    }
  }

  /**
   * Step 4 of `i18n_completeness`: every locale (name, file content) whose
   * file lacks identifiers of the fallback, with the identifiers it lacks.
   */
  method MissingPerLocale(fallbackKeys: set<string>, locales: seq<(string, string)>)
    returns (perLocale: map<string, set<string>>)
    ensures ReportsMissing(fallbackKeys, locales, perLocale)
    ensures perLocale == map[] <==> forall m :: 0 <= m < |locales| ==> LocaleMissing(fallbackKeys, locales[m].1) == {}
  {
    perLocale := map[];
    ghost var misses: seq<set<string>> := [];
    ghost var missingOf := (locale: (string, string)) => LocaleMissing(fallbackKeys, locale.1);
    var n := 0;
    while n < |locales|
      invariant 0 <= n <= |locales| && |misses| == n
      invariant misses == Map(missingOf, locales[..n])
      invariant Reports(locales[..n], misses, perLocale)
    {
      var missing := LocaleMissingKeys(fallbackKeys, locales[n].1);
      ReportsStep(locales[..n], misses, perLocale, locales[n], missing);
      PrefixStep(locales, n);
      MapStep(missingOf, locales, n);
      misses := misses + [missing];
      if missing != {} {
        perLocale := perLocale[locales[n].0 := missing];
      }
      n := n + 1;
    }
    assert locales[..n] == locales;
    MapAt(missingOf, locales);
    ReportsAll(fallbackKeys, locales, misses, perLocale);
  }

  /**
   * `i18n_completeness`: the fallback must define some identifier, must
   * define every identifier the sources use, and every locale must define
   * every identifier of the fallback. Locales are (name, file content).
   */
  method CheckCompleteness(fallbackContent: string, sources: seq<string>, locales: seq<(string, string)>)
    returns (outcome: Outcome)
    ensures outcome == NoFallbackKeys <==> FtlKeysOf(Lines(fallbackContent)) == {}
    ensures outcome.MissingFromFallback? ==>
      outcome.keys == ReferencedKeys(sources) - FtlKeysOf(Lines(fallbackContent)) && outcome.keys != {}
    ensures outcome.LocalesIncomplete? ==>
      outcome.missing != map[] && ReportsMissing(FtlKeysOf(Lines(fallbackContent)), locales, outcome.missing)
    ensures outcome == Complete <==>
      FtlKeysOf(Lines(fallbackContent)) != {}
      && ReferencedKeys(sources) <= FtlKeysOf(Lines(fallbackContent))
      && forall m :: 0 <= m < |locales| ==> LocaleMissing(FtlKeysOf(Lines(fallbackContent)), locales[m].1) == {}
  {
    var fallbackKeys := ParseFtlKeys(fallbackContent);
    if fallbackKeys == {} {
      return NoFallbackKeys;
    }
    var referenced := ExtractTranslationKeys(sources);
    var missingInFallback := MissingFrom(referenced, fallbackKeys);
    if missingInFallback != {} {
      return MissingFromFallback(missingInFallback);
    }
    var perLocale := MissingPerLocale(fallbackKeys, locales);
    if perLocale != map[] {
      return LocalesIncomplete(perLocale);
    }
    outcome := Complete;
  }
}
