/**
 * The text helpers of the SVG snapshot: XML text escaping, label
 * shortening and the snapshot-scoped identifier generator.
 */
module ExportText {
  import opened Text

  // ---- escape_text ----

  /** `str::replace(c, with)` for a single character. */
  function Replace(s: string, c: char, with: string): (r: string)
    ensures c !in s ==> r == s
  {
    if s == [] then []
    else (if s[0] == c then with else [s[0]]) + Replace(s[1..], c, with)
  }

  lemma {:induction false} ReplaceAppend(a: string, b: string, c: char, with: string)
    ensures Replace(a + b, c, with) == Replace(a, c, with) + Replace(b, c, with)
  {
    if a == [] {
      assert a + b == b;
    } else {
      assert (a + b)[1..] == a[1..] + b;
      ReplaceAppend(a[1..], b, c, with);
    }
  }

  /**
   * `escape_text`: the five replacements in the source's order, `&` first so
   * that the entities the later steps introduce are not escaped again.
   */
  function EscapeText(s: string): (r: string)
    ensures (forall i :: 0 <= i < |s| ==> s[i] !in "&<>\"'") ==> r == s
  {
    assert (forall i :: 0 <= i < |s| ==> s[i] !in "&<>\"'")
        ==> '&' !in s && '<' !in s && '>' !in s && '"' !in s && '\'' !in s;
    Replace(Replace(Replace(Replace(Replace(s, '&', "&amp;"), '<', "&lt;"), '>', "&gt;"), '"', "&quot;"), '\'', "&#39;")
  }

  /** The entity for one character: the reference definition of the escaping. */
  function EscapeChar(c: char): (r: string)
    ensures |r| >= 1
    ensures r[0] == '&' <==> c in "&<>\"'"
  {
    match c
    case '&' => "&amp;"
    case '<' => "&lt;"
    case '>' => "&gt;"
    case '"' => "&quot;"
    case '\'' => "&#39;"
    case _ => [c]
  }

  /** Every character replaced by its entity, one after the other. */
  function EscapeEach(s: string): string {
    if s == [] then [] else EscapeChar(s[0]) + EscapeEach(s[1..])
  }

  lemma EscapeTextAppend(a: string, b: string)
    ensures EscapeText(a + b) == EscapeText(a) + EscapeText(b)
  {
    var s1a, s1b := Replace(a, '&', "&amp;"), Replace(b, '&', "&amp;");
    ReplaceAppend(a, b, '&', "&amp;");
    var s2a, s2b := Replace(s1a, '<', "&lt;"), Replace(s1b, '<', "&lt;");
    ReplaceAppend(s1a, s1b, '<', "&lt;");
    var s3a, s3b := Replace(s2a, '>', "&gt;"), Replace(s2b, '>', "&gt;");
    ReplaceAppend(s2a, s2b, '>', "&gt;");
    var s4a, s4b := Replace(s3a, '"', "&quot;"), Replace(s3b, '"', "&quot;");
    ReplaceAppend(s3a, s3b, '"', "&quot;");
    ReplaceAppend(s4a, s4b, '\'', "&#39;");
  }

  lemma ReplaceSingle(x: char, c: char, with: string)
    ensures Replace([x], c, with) == if x == c then with else [x]
  {
    assert [x][1..] == [];
  }

  lemma EscapeTextOfChar(c: char)
    ensures EscapeText([c]) == EscapeChar(c)
  {
    ReplaceSingle(c, '&', "&amp;");
    if c == '&' {
      assert '<' !in "&amp;" && '>' !in "&amp;" && '"' !in "&amp;" && '\'' !in "&amp;";
      return;
    }
    ReplaceSingle(c, '<', "&lt;");
    if c == '<' {
      assert '>' !in "&lt;" && '"' !in "&lt;" && '\'' !in "&lt;";
      return;
    }
    ReplaceSingle(c, '>', "&gt;");
    if c == '>' {
      assert '"' !in "&gt;" && '\'' !in "&gt;";
      return;
    }
    ReplaceSingle(c, '"', "&quot;");
    if c == '"' {
      assert '\'' !in "&quot;";
      return;
    }
    ReplaceSingle(c, '\'', "&#39;");
  }

  /** The chain of replacements escapes each character on its own, as if in one pass. */
  lemma {:induction false} EscapeTextIsEscapeEach(s: string)
    ensures EscapeText(s) == EscapeEach(s)
  {
    if s != [] {
      assert s == [s[0]] + s[1..];
      EscapeTextAppend([s[0]], s[1..]);
      EscapeTextOfChar(s[0]);
      EscapeTextIsEscapeEach(s[1..]);
    }
  }

  /** The escaped text has no raw `<`, `>`, `"` or `'`. */
  lemma {:induction false} EscapeEachHasNoMarkup(s: string)
    ensures forall c :: c in "<>\"'" ==> c !in EscapeEach(s)
  {
    if s != [] {
      EscapeEachHasNoMarkup(s[1..]);
    }
  }

  /**
   * The character at the front of `s` once entities are read back, and how
   * many characters it takes up: one of the five entities, or the
   * character itself.
   */
  function Decode(s: string): (r: (char, nat))
    requires s != []
    ensures 1 <= r.1 <= |s|
  {
    if s[0] != '&' then (s[0], 1)
    else if |s| >= 5 && s[1] == 'a' && s[2] == 'm' && s[3] == 'p' && s[4] == ';' then ('&', 5)
    else if |s| >= 4 && s[1] == 'l' && s[2] == 't' && s[3] == ';' then ('<', 4)
    else if |s| >= 4 && s[1] == 'g' && s[2] == 't' && s[3] == ';' then ('>', 4)
    else if |s| >= 6 && s[1] == 'q' && s[2] == 'u' && s[3] == 'o' && s[4] == 't' && s[5] == ';' then ('"', 6)
    else if |s| >= 5 && s[1] == '#' && s[2] == '3' && s[3] == '9' && s[4] == ';' then ('\'', 5)
    else ('&', 1)
  }

  /** Reading entities back: the partner of the escaping. */
  function Unescape(s: string): string
    decreases |s|
  {
    if s == [] then []
    else
      var (c, n) := Decode(s);
      [c] + Unescape(s[n..])
  }

  lemma DecodeEscaped(c: char, t: string)
    ensures Decode(EscapeChar(c) + t) == (c, |EscapeChar(c)|)
  {
    var e := EscapeChar(c);
    var s := e + t;
    assert forall i :: 0 <= i < |e| ==> s[i] == e[i];
  }

  lemma UnescapeChar(c: char, t: string)
    ensures Unescape(EscapeChar(c) + t) == [c] + Unescape(t)
  {
    var e := EscapeChar(c);
    var s := e + t;
    DecodeEscaped(c, t);
    assert s[|e|..] == t;
  }

  /** Nothing is escaped twice: undoing the entities gives the original text back. */
  lemma {:induction false} EscapeTextRoundTrip(s: string)
    ensures Unescape(EscapeText(s)) == s
  {
    EscapeTextIsEscapeEach(s);
    EscapeEachRoundTrip(s);
  }

  lemma {:induction false} EscapeEachRoundTrip(s: string)
    ensures Unescape(EscapeEach(s)) == s
  {
    if s != [] {
      UnescapeChar(s[0], EscapeEach(s[1..]));
      EscapeEachRoundTrip(s[1..]);
    }
  }

  // ---- ellipsize ----

  const Ellipsis: char := '\U{2026}'

  /**
   * `ellipsize`: text of at most `maxChars` characters is kept; longer text
   * is cut to `maxChars - 1` characters (none when `maxChars` is 0) and
   * closed by an ellipsis.
   */
  function Ellipsize(s: string, maxChars: nat): (r: string)
    ensures |s| <= maxChars ==> r == s
    ensures |s| > maxChars ==> |r| == (if maxChars == 0 then 1 else maxChars)
    ensures |s| > maxChars ==> r[..|r| - 1] == s[..|r| - 1] && r[|r| - 1] == Ellipsis
  {
    if |s| <= maxChars then s
    else
      var keep := if maxChars == 0 then 0 else maxChars - 1;
      s[..keep] + [Ellipsis]
  }

  // ---- IdGen ----

  /** The number at the end of an identifier: the text after its last `-`. */
  function LastSegment(s: string): (r: string)
    ensures '-' !in r
  {
    if s == [] then []
    else if s[|s| - 1] == '-' then []
    else LastSegment(s[..|s| - 1]) + [s[|s| - 1]]
  }

  lemma {:induction false} LastSegmentAfterDash(x: string, d: string)
    requires '-' !in d
    ensures LastSegment(x + "-" + d) == d
  {
    if d == [] {
      assert x + "-" + d == x + "-";
    } else {
      var s := x + "-" + d;
      assert s[..|s| - 1] == x + "-" + d[..|d| - 1];
      LastSegmentAfterDash(x, d[..|d| - 1]);
      assert d[..|d| - 1] + [d[|d| - 1]] == d;
    }
  }

  /** `prefix-stem-n`. */
  function Id(prefix: string, stem: string, n: nat): string {
    prefix + "-" + stem + "-" + NatToString(n)
  }

  /** The serial number an identifier carries, or -1 when its last segment is not a number. */
  function Serial(id: string): int {
    var d := LastSegment(id);
    if forall i :: 0 <= i < |d| ==> IsDigit(d[i]) then DigitsValue(d) else -1
  }

  /** The serial of `prefix-stem-n` is `n`, whatever dashes the prefix and stem contain. */
  lemma SerialOfId(prefix: string, stem: string, n: nat)
    ensures Serial(Id(prefix, stem, n)) == n
  {
    var d := NatToString(n);
    LastSegmentAfterDash(prefix + "-" + stem, d);
    DigitsValueOfNatToString(n);
  }

  /** Identifiers with different serial numbers differ. */
  lemma IdsDistinct(prefix: string, stem: string, m: nat, otherStem: string, n: nat)
    requires m != n
    ensures Id(prefix, stem, m) != Id(prefix, otherStem, n)
  {
    SerialOfId(prefix, stem, m);
    SerialOfId(prefix, otherStem, n);
  }

  /**
   * `IdGen`: hands out `prefix-stem-n` with `n` counting up from 1. The
   * ghost set `issued` holds every identifier handed out so far.
   */
  class IdGen {
    var counter: nat
    const prefix: string
    ghost var issued: set<string>

    ghost predicate Valid()
      reads this
    {
      counter >= 1 && forall id :: id in issued ==> 1 <= Serial(id) < counter
    }

    /** `IdGen::new`: the counter starts at 1 and nothing is issued yet. */
    constructor (prefix: string)
      ensures Valid() && this.prefix == prefix && counter == 1 && issued == {}
    {
      this.prefix := prefix;
      counter := 1;
      issued := {};
    }

    /** `next`: the identifier with the current count, which then rises by one. */
    method Next(stem: string) returns (id: string)
      requires Valid()
      modifies this
      ensures Valid()
      ensures id == Id(prefix, stem, old(counter)) && counter == old(counter) + 1
      ensures id !in old(issued) && issued == old(issued) + {id}
    {
      var n := counter;
      counter := counter + 1;
      id := prefix + "-" + stem + "-" + NatToString(n);
      SerialOfId(prefix, stem, n);
      issued := issued + {id};
    }
  }

  /** Two identifiers drawn one after the other from one generator differ. */
  method TwoIds(prefix: string, first: string, second: string) returns (a: string, b: string)
    ensures a != b
    ensures a == Id(prefix, first, 1) && b == Id(prefix, second, 2)
  {
    var ids := new IdGen(prefix);
    a := ids.Next(first);
    b := ids.Next(second);
  }
}
