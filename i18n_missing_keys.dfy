/**
 * The second translation guard: every locale's Fluent file must define at
 * least the message keys of the fallback (en-US) file, and no file may
 * define a key twice. Its key heuristic differs from the completeness
 * guard's: any text without blanks before the first `=` counts.
 */
module I18nMissingKeys {
  import opened Wrappers
  import opened Text
  import I18nCompleteness

  /** `s` holds no `c`. */
  predicate Lacks(s: string, c: char) {
    forall i :: 0 <= i < |s| ==> s[i] != c
  }

  /**
   * The key one line defines, as `extract_keys` and `assert_no_dup_keys`
   * both read it: blank lines, comments and attribute lines define none;
   * otherwise the trimmed text before the first `=`, when it is non-empty,
   * holds no space or tab and does not start with `[` or `@`.
   */
  function AcceptedKey(line: string): (r: Option<string>)
    ensures r.Some? ==> (r.value != [] && Lacks(r.value, ' ') && Lacks(r.value, '\t')
      && r.value[0] != '[' && r.value[0] != '@')
    ensures var t := Trim(line); (t == [] || t[0] == '#' || t[0] == '.') ==> r.None?
    ensures r.Some? ==> var t := Trim(line); IndexOf(t, '=') >= 0 && r.value == Trim(t[..IndexOf(t, '=')])
  {
    var t := Trim(line);
    if t == [] || t[0] == '#' || t[0] == '.' then None
    else
      var eq := IndexOf(t, '=');
      if eq < 0 then None
      else
        var key := Trim(t[..eq]);
        if key != [] && Lacks(key, ' ') && Lacks(key, '\t') && key[0] != '[' && key[0] != '@' then Some(key)
        else None
  }

  /** Trimming `key=value` with a key that starts with non-white-space trims only the value's end. */
  lemma TrimDefinition(key: string, value: string)
    requires key != [] && !IsWhitespace(key[0])
    ensures Trim(key + "=" + value) == (key + "=") + TrimEnd(value)
  {
    var head := key + "=";
    assert head[0] == key[0] && head[|head| - 1] == '=';
    assert (head + value)[0] == key[0];
    assert TrimStart(head + value) == head + value;
    TrimEndAppend(head, value);
  }

  /** The first `=` of a text that starts with an `=`-free key and an `=` is right after the key. */
  lemma FirstEquals(key: string, t: string)
    requires |key| < |t| && t[..|key|] == key && t[|key|] == '=' && Lacks(key, '=')
    ensures IndexOf(t, '=') == |key|
  {
    assert forall j :: 0 <= j < |key| ==> t[j] == key[j];
    IndexOfAt(t, '=', |key|);
  }

  /** A line `key=value` defines `key` when it is a key this heuristic accepts. */
  lemma DefinitionLine(key: string, value: string)
    requires key != [] && Lacks(key, ' ') && Lacks(key, '\t') && Lacks(key, '=')
    requires key[0] != '[' && key[0] != '@' && key[0] != '#' && key[0] != '.'
    requires !IsWhitespace(key[0]) && !IsWhitespace(key[|key| - 1])
    ensures AcceptedKey(key + "=" + value) == Some(key)
  {
    var head := key + "=";
    var t := Trim(key + "=" + value);
    TrimDefinition(key, value);
    AppendPrefix(head, TrimEnd(value), |key|);
    assert head[..|key|] == key;
    assert t[|key|] == '=' && t[0] == key[0];
    FirstEquals(key, t);
    TrimOfTrimmed(key);
  }

  // ---- counting definitions ----

  /** How many of the lines define `k` by `key`. */
  function Occurrences(lines: seq<string>, key: string -> Option<string>, k: string): nat {
    if lines == [] then 0
    else Occurrences(lines[..|lines| - 1], key, k) + (if key(lines[|lines| - 1]) == Some(k) then 1 else 0)
  }

  /** The keys defined again after an earlier line already defined them. */
  function Dups(lines: seq<string>, key: string -> Option<string>): set<string> {
    if lines == [] then {}
    else
      var init := lines[..|lines| - 1];
      var last := key(lines[|lines| - 1]);
      Dups(init, key) + (if last.Some? && last.value in I18nCompleteness.Collect(init, key) then {last.value} else {})
  }

  /** A key is collected exactly when it is defined at least once. */
  lemma {:induction false} CollectedIffOccurs(lines: seq<string>, key: string -> Option<string>, k: string)
    ensures k in I18nCompleteness.Collect(lines, key) <==> Occurrences(lines, key, k) >= 1
  {
    if lines != [] {
      CollectedIffOccurs(lines[..|lines| - 1], key, k);
    }
  }

  /** A key is reported as duplicated exactly when it is defined at least twice. */
  lemma {:induction false} DupsIffTwice(lines: seq<string>, key: string -> Option<string>, k: string)
    ensures k in Dups(lines, key) <==> Occurrences(lines, key, k) >= 2
  {
    if lines != [] {
      var init := lines[..|lines| - 1];
      DupsIffTwice(init, key, k);
      CollectedIffOccurs(init, key, k);
    }
  }

  /** Every duplicated key is also a defined key. */
  lemma DupsAreKeys(lines: seq<string>, key: string -> Option<string>)
    ensures Dups(lines, key) <= I18nCompleteness.Collect(lines, key)
  {
    forall k | k in Dups(lines, key)
      ensures k in I18nCompleteness.Collect(lines, key)
    {
      DupsIffTwice(lines, key, k);
      CollectedIffOccurs(lines, key, k);
    }
  }

  lemma DupsStep(lines: seq<string>, key: string -> Option<string>, n: nat)
    requires n < |lines|
    ensures var k := key(lines[n]);
      Dups(lines[..n + 1], key) == Dups(lines[..n], key)
        + (if k.Some? && k.value in I18nCompleteness.Collect(lines[..n], key) then {k.value} else {})
  {
    assert lines[..n + 1][..n] == lines[..n];
  }

  /** The keys a file defines. */
  function KeysIn(src: string): set<string> {
    I18nCompleteness.Collect(Lines(src), AcceptedKey)
  }

  /**
   * A line defines `k` under this heuristic: after trimming it is not blank,
   * not a comment and not an attribute, it has an `=`, and the trimmed text
   * before the first `=` is `k`, which is non-empty, holds no space or tab
   * and starts with neither `[` nor `@`.
   */
  ghost predicate DefinesKey(line: string, k: string) {
    var t := Trim(line);
    && t != [] && t[0] != '#' && t[0] != '.'
    && IndexOf(t, '=') >= 0
    && Trim(t[..IndexOf(t, '=')]) == k
    && k != [] && Lacks(k, ' ') && Lacks(k, '\t') && k[0] != '[' && k[0] != '@'
  }

  lemma AcceptedKeyDefines(line: string, k: string)
    ensures AcceptedKey(line) == Some(k) <==> DefinesKey(line, k)
  {
  }

  /** `extract_keys` collects exactly the keys some line defines. */
  lemma KeysInDefined(lines: seq<string>, k: string)
    ensures k in I18nCompleteness.Collect(lines, AcceptedKey)
        <==> exists i :: 0 <= i < |lines| && DefinesKey(lines[i], k)
  {
    I18nCompleteness.CollectIff(lines, AcceptedKey, k);
    forall i | 0 <= i < |lines|
      ensures AcceptedKey(lines[i]) == Some(k) <==> DefinesKey(lines[i], k)
    {
      AcceptedKeyDefines(lines[i], k);
    }
  }

  /** The keys a file defines twice or more. */
  function DupKeysIn(src: string): set<string> {
    Dups(Lines(src), AcceptedKey)
  }

  lemma KeysStep(lines: seq<string>, n: nat)
    requires n < |lines|
    ensures I18nCompleteness.Collect(lines[..n + 1], AcceptedKey)
      == I18nCompleteness.Collect(lines[..n], AcceptedKey) + I18nCompleteness.AsSet(AcceptedKey(lines[n]))
  {
    I18nCompleteness.CollectStep(lines, AcceptedKey, n);
  }

  /** `extract_keys`: every line in turn, its key added to the set. */
  method ExtractKeys(src: string) returns (keys: set<string>)
    ensures keys == KeysIn(src)
  {
    var lines := Lines(src);
    keys := {};
    var n := 0;
    while n < |lines|
      invariant 0 <= n <= |lines|
      invariant keys == I18nCompleteness.Collect(lines[..n], AcceptedKey)
    {
      KeysStep(lines, n);
      var key := AcceptedKey(lines[n]);
      if key.Some? {
        keys := keys + {key.value};
      }
      n := n + 1;
    }
    assert lines[..n] == lines;
  }

  /**
   * `assert_no_dup_keys` without its panic: the keys seen so far, and the
   * ones met again. The file passes when the result is empty.
   */
  method FindDupKeys(src: string) returns (dups: set<string>)
    ensures dups == DupKeysIn(src)
  {
    var lines := Lines(src);
    var seen;
    seen, dups := SeenAndDups(lines, AcceptedKey);
  }

  /** The loop of `assert_no_dup_keys` over the lines, for any way `key` of reading a line's key. */
  method SeenAndDups(lines: seq<string>, key: string -> Option<string>) returns (seen: set<string>, dups: set<string>)
    ensures seen == I18nCompleteness.Collect(lines, key)
    ensures dups == Dups(lines, key)
  {
    seen, dups := {}, {};
    var n := 0;
    while n < |lines|
      invariant 0 <= n <= |lines|
      invariant seen == I18nCompleteness.Collect(lines[..n], key)
      invariant dups == Dups(lines[..n], key)
    {
      I18nCompleteness.CollectStep(lines, key, n);
      DupsStep(lines, key, n);
      var k := key(lines[n]);
      if k.Some? {
        if k.value in seen {
          dups := dups + {k.value};
        } else {
          seen := seen + {k.value};
        }
      }
      n := n + 1;
    }
    assert lines[..n] == lines;
  }

  // ---- the test ----

  /** How `all_locales_have_all_fallback_keys` ends. */
  datatype Verdict =
    | NoFallbackKeys
    | Duplicates(locale: string, keys: set<string>)
    | Incomplete(failures: seq<(string, set<string>)>)
    | Complete

  /** The locales, in order, whose file `missing` finds lacking, each with what it lacks. */
  function Reported(locales: seq<(string, string)>, missing: string -> set<string>): seq<(string, set<string>)> {
    if locales == [] then []
    else
      var last := locales[|locales| - 1];
      Reported(locales[..|locales| - 1], missing) + (if missing(last.1) != {} then [(last.0, missing(last.1))] else [])
  }

  lemma ReportedStep(locales: seq<(string, string)>, missing: string -> set<string>, n: nat)
    requires n < |locales|
    ensures Reported(locales[..n + 1], missing)
      == Reported(locales[..n], missing) + (if missing(locales[n].1) != {} then [(locales[n].0, missing(locales[n].1))] else [])
  {
    assert locales[..n + 1][..n] == locales[..n];
  }

  lemma {:induction false} ReportedEmptyIff(locales: seq<(string, string)>, missing: string -> set<string>)
    ensures Reported(locales, missing) == [] <==> forall m :: 0 <= m < |locales| ==> missing(locales[m].1) == {}
  {
    if locales != [] {
      var init := locales[..|locales| - 1];
      ReportedEmptyIff(init, missing);
      assert forall m :: 0 <= m < |init| ==> init[m] == locales[m];
    }
  }

  lemma {:induction false} ReportedSound(locales: seq<(string, string)>, missing: string -> set<string>, f: nat)
    requires f < |Reported(locales, missing)|
    ensures var entry := Reported(locales, missing)[f];
      entry.1 != {} && exists m :: 0 <= m < |locales| && locales[m].0 == entry.0 && entry.1 == missing(locales[m].1)
  {
    var init := locales[..|locales| - 1];
    if f < |Reported(init, missing)| {
      ReportedSound(init, missing, f);
      var entry := Reported(init, missing)[f];
      var m :| 0 <= m < |init| && init[m].0 == entry.0 && entry.1 == missing(init[m].1);
      assert locales[m] == init[m];
    } else {
      assert locales[|locales| - 1] == locales[|init|];
    }
  }

  /** The fallback keys a file lacks. */
  function MissingKeys(fallbackKeys: set<string>, src: string): set<string> {
    fallbackKeys - KeysIn(src)
  }

  /** The locales, in order, that lack fallback keys, each with the keys it lacks. */
  function Failures(fallbackKeys: set<string>, locales: seq<(string, string)>): seq<(string, set<string>)> {
    Reported(locales, src => MissingKeys(fallbackKeys, src))
  }

  lemma DiffEmptyIff(a: set<string>, b: set<string>)
    ensures a - b == {} <==> a <= b
  {
    if a <= b {
      assert a - b == {};
    } else {
      var k :| k in a && k !in b;
      assert k in a - b;
    }
  }

  /** No failure is reported exactly when every locale defines every fallback key. */
  lemma FailuresEmptyIff(fallbackKeys: set<string>, locales: seq<(string, string)>)
    ensures Failures(fallbackKeys, locales) == [] <==> forall m :: 0 <= m < |locales| ==> fallbackKeys <= KeysIn(locales[m].1)
  {
    ReportedEmptyIff(locales, src => MissingKeys(fallbackKeys, src));
    forall m | 0 <= m < |locales|
      ensures MissingKeys(fallbackKeys, locales[m].1) == {} <==> fallbackKeys <= KeysIn(locales[m].1)
    {
      DiffEmptyIff(fallbackKeys, KeysIn(locales[m].1));
    }
  }

  /** Every reported failure names a locale and the fallback keys its file lacks, none of them empty. */
  lemma FailuresSound(fallbackKeys: set<string>, locales: seq<(string, string)>, f: nat)
    requires f < |Failures(fallbackKeys, locales)|
    ensures var entry := Failures(fallbackKeys, locales)[f];
      entry.1 != {} && exists m :: 0 <= m < |locales| && locales[m].0 == entry.0 && entry.1 == fallbackKeys - KeysIn(locales[m].1)
  {
    ReportedSound(locales, src => MissingKeys(fallbackKeys, src), f);
  }

  /** The fallback keys one locale's file lacks: its keys extracted, then the difference. */
  method LocaleMissingKeys(fallbackKeys: set<string>, src: string) returns (missing: set<string>)
    ensures missing == MissingKeys(fallbackKeys, src)
  {
    var keys := ExtractKeys(src);
    missing := I18nCompleteness.MissingFrom(fallbackKeys, keys);
  }

  /** The file defines no key twice. */
  predicate NoDupKeys(locale: (string, string)) {
    DupKeysIn(locale.1) == {}
  }

  /**
   * How the locale loop ends: at the first locale that defines a key
   * twice, or else with every locale that lacks fallback keys.
   */
  function LocalesVerdict(fallbackKeys: set<string>, locales: seq<(string, string)>): (v: Verdict)
    ensures !v.NoFallbackKeys?
    ensures v.Duplicates? ==> (v.keys != {} &&
      exists m :: 0 <= m < |locales| && locales[m].0 == v.locale && v.keys == DupKeysIn(locales[m].1))
    ensures v.Incomplete? ==> v.failures == Failures(fallbackKeys, locales) && v.failures != []
  {
    FirstFailingSpec(NoDupKeys, locales);
    match FirstFailing(NoDupKeys, locales)
    case Some(m) => Duplicates(locales[m].0, DupKeysIn(locales[m].1))
    case None =>
      var failures := Failures(fallbackKeys, locales);
      if failures != [] then Incomplete(failures) else Complete
  }

  /** How the whole test ends, checking the fallback first. */
  function TestVerdict(fallback: string, locales: seq<(string, string)>): (v: Verdict)
    ensures v == NoFallbackKeys <==> KeysIn(fallback) == {}
  {
    if KeysIn(fallback) == {} then NoFallbackKeys
    else if DupKeysIn(fallback) != {} then Duplicates("en-US", DupKeysIn(fallback))
    else LocalesVerdict(KeysIn(fallback), locales)
  }

  /** The locale loop of `all_locales_have_all_fallback_keys`. */
  method CheckLocales(fallbackKeys: set<string>, locales: seq<(string, string)>) returns (v: Verdict)
    ensures v == LocalesVerdict(fallbackKeys, locales)
  {
    var failures: seq<(string, set<string>)> := [];
    var n := 0;
    while n < |locales|
      invariant 0 <= n <= |locales|
      invariant failures == Failures(fallbackKeys, locales[..n])
      invariant All(NoDupKeys, locales[..n])
    {
      var (locale, src) := locales[n];
      var dups := FindDupKeys(src);
      if dups != {} {
        FirstFailingAt(NoDupKeys, locales, n);
        return Duplicates(locale, dups);
      }
      AllStep(NoDupKeys, locales, n);
      var missing := LocaleMissingKeys(fallbackKeys, src);
      ReportedStep(locales, src => MissingKeys(fallbackKeys, src), n);
      if missing != {} {
        failures := failures + [(locale, missing)];
      }
      n := n + 1;
    }
    assert locales[..n] == locales;
    FirstFailingNone(NoDupKeys, locales);
    if failures != [] {
      return Incomplete(failures);
    }
    v := Complete;
  }

  /**
   * `all_locales_have_all_fallback_keys`: the fallback must define a key
   * and no key twice; then each locale in turn must define no key twice
   * (the first that does ends the test) and is checked for missing keys,
   * which are reported together at the end.
   */
  method AllLocalesHaveAllFallbackKeys(fallback: string, locales: seq<(string, string)>) returns (v: Verdict)
    ensures v == TestVerdict(fallback, locales)
  {
    var fallbackKeys := ExtractKeys(fallback);
    if fallbackKeys == {} {
      return NoFallbackKeys;
    }
    var fallbackDups := FindDupKeys(fallback);
    if fallbackDups != {} {
      return Duplicates("en-US", fallbackDups);
    }
    v := CheckLocales(fallbackKeys, locales);
  }

  /**
   * A duplicate report names either the fallback, with its duplicates, or
   * the first locale whose file defines a key twice, with those keys.
   */
  lemma VerdictDuplicates(fallback: string, locales: seq<(string, string)>)
    requires TestVerdict(fallback, locales).Duplicates?
    ensures var v := TestVerdict(fallback, locales);
      KeysIn(fallback) != {} && v.keys != {}
      && ((v.locale == "en-US" && v.keys == DupKeysIn(fallback))
          || (DupKeysIn(fallback) == {}
              && exists m :: 0 <= m < |locales| && locales[m].0 == v.locale && v.keys == DupKeysIn(locales[m].1)
                   && forall l :: 0 <= l < m ==> DupKeysIn(locales[l].1) == {}))
  {
    if DupKeysIn(fallback) == {} {
      FirstFailingSpec(NoDupKeys, locales);
    }
  }

  /** Missing keys are reported only when no file defines a key twice, and then they are all reported. */
  lemma VerdictIncomplete(fallback: string, locales: seq<(string, string)>)
    requires TestVerdict(fallback, locales).Incomplete?
    ensures var v := TestVerdict(fallback, locales);
      v.failures == Failures(KeysIn(fallback), locales) && v.failures != []
      && DupKeysIn(fallback) == {} && forall m :: 0 <= m < |locales| ==> DupKeysIn(locales[m].1) == {}
  {
    FirstFailingSpec(NoDupKeys, locales);
  }

  /** The test passes exactly when no file defines a key twice and every locale defines every fallback key. */
  lemma VerdictComplete(fallback: string, locales: seq<(string, string)>)
    ensures TestVerdict(fallback, locales) == Complete <==>
      KeysIn(fallback) != {} && DupKeysIn(fallback) == {}
      && (forall m :: 0 <= m < |locales| ==> DupKeysIn(locales[m].1) == {})
      && forall m :: 0 <= m < |locales| ==> KeysIn(fallback) <= KeysIn(locales[m].1)
  {
    FirstFailingSpec(NoDupKeys, locales);
    FailuresEmptyIff(KeysIn(fallback), locales);
  }
}
