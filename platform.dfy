/**
 * The platform name and the "UTC±hh:mm" time-zone label stored with every
 * session. Offsets are whole minutes east of UTC; Rust's `i32` division
 * truncates toward zero, which is written out here.
 */
module Platform {
  import opened Wrappers
  import opened Text

  datatype Platform = Web | Desktop | Mobile | Unknown

  /** `Platform::as_str`. */
  function AsStr(p: Platform): (s: string)
    ensures |s| > 0
  {
    match p
    case Web => "web"
    case Desktop => "desktop"
    case Mobile => "mobile"
    case Unknown => "unknown"
  }

  /** The four platforms have four different names. */
  lemma AsStrInjective(p: Platform, q: Platform)
    requires AsStr(p) == AsStr(q)
    ensures p == q
  {
  }

  // ---- format_utc_offset ----

  function Abs(n: int): nat {
    if n < 0 then -n else n
  }

  /** Rust's `/` on integers: the quotient truncated toward zero. */
  function TruncDiv(a: int, b: int): (q: int)
    requires b > 0
    ensures Abs(q) == Abs(a) / b
    ensures a >= 0 ==> q >= 0
    ensures a < 0 ==> q <= 0
  {
    if a >= 0 then a / b else -((-a) / b)
  }

  /** A number below 100 zero-padded to two digits (`{:02}`); wider numbers keep all their digits. */
  function Pad2(n: nat): (s: string)
    ensures |s| >= 2
    ensures n < 100 ==> |s| == 2
    ensures forall i :: 0 <= i < |s| ==> IsDigit(s[i])
    ensures DigitsValue(s) == n
  {
    DigitsValueOfNatToString(n);
    if n < 10 then
      var s := "0" + NatToString(n);
      assert s[..1] == "0" && s[..|s| - 1] == "0" && s[|s| - 1] == NatToString(n)[0];
      s
    else NatToString(n)
  }

  /** `{:+03}`: an explicit sign, then the magnitude padded to two digits. */
  function SignedPad3(n: int): string {
    (if n < 0 then "-" else "+") + Pad2(Abs(n))
  }

  /**
   * `format_utc_offset` as the source writes it: "UTC" for a zero offset,
   * otherwise the truncated hour count with its own sign and the minutes
   * of the magnitude. The sign is taken from the hours, so an offset
   * strictly between -60 and 0 loses it.
   */
  function FormatUtcOffsetAsWritten(offsetMinutes: int): (s: string)
    ensures offsetMinutes >= 0 || offsetMinutes <= -60 ==> s == FormatUtcOffset(offsetMinutes)
    ensures -60 < offsetMinutes < 0 ==> s == FormatUtcOffset(-offsetMinutes)
  {
    var hours := TruncDiv(offsetMinutes, 60);
    var minutes := Abs(offsetMinutes) % 60;
    assert offsetMinutes <= -60 ==> Abs(offsetMinutes) / 60 >= 1 && hours < 0;
    if offsetMinutes == 0 then "UTC" else "UTC" + SignedPad3(hours) + ":" + Pad2(minutes)
  }

  /** The corrected label: the sign is taken from the offset itself. */
  function FormatUtcOffset(offsetMinutes: int): (s: string)
    ensures offsetMinutes == 0 <==> s == "UTC"
  {
    if offsetMinutes == 0 then "UTC"
    else
      var s := "UTC" + (if offsetMinutes < 0 then "-" else "+") + Pad2(Abs(offsetMinutes) / 60) + ":" + Pad2(Abs(offsetMinutes) % 60);
      assert |s| > 3;
      s
  }

  predicate AllDigits(s: string) {
    forall i :: 0 <= i < |s| ==> IsDigit(s[i])
  }

  /** "UTC", or "UTC", a sign, hour digits, ":" and two minute digits: the value in minutes. */
  function ParseUtcOffset(s: string): Option<int> {
    if s == "UTC" then Some(0)
    else if |s| < 8 || s[..3] != "UTC" || (s[3] != '+' && s[3] != '-') || s[|s| - 3] != ':' then None
    else
      var hours, minutes := s[4..|s| - 3], s[|s| - 2..];
      if !AllDigits(hours) || !AllDigits(minutes) then None
      else
        var magnitude := 60 * DigitsValue(hours) + DigitsValue(minutes);
        Some(if s[3] == '-' then -magnitude else magnitude)
  }

  /** A label built from a sign, hour digits and two minute digits reads back as its value. */
  lemma ParseSigned(s: string, sign: char, h: string, m: string)
    requires sign == '+' || sign == '-'
    requires |h| >= 2 && |m| == 2 && AllDigits(h) && AllDigits(m)
    requires s == "UTC" + [sign] + h + ":" + m
    ensures var magnitude := 60 * DigitsValue(h) + DigitsValue(m);
      ParseUtcOffset(s) == Some(if sign == '-' then -magnitude else magnitude)
  {
    LabelParts(s, sign, h, m);
  }

  lemma LabelParts(s: string, sign: char, h: string, m: string)
    requires |m| == 2 && s == "UTC" + [sign] + h + ":" + m
    ensures |s| == |h| + 7
    ensures s[..3] == "UTC" && s[3] == sign && s[|s| - 3] == ':'
    ensures s[4..|s| - 3] == h && s[|s| - 2..] == m
  {
  }

  /** Reading the corrected label back gives the offset. */
  lemma FormatUtcOffsetRoundTrip(offsetMinutes: int)
    ensures ParseUtcOffset(FormatUtcOffset(offsetMinutes)) == Some(offsetMinutes)
  {
    if offsetMinutes != 0 {
      var a := Abs(offsetMinutes);
      var sign := if offsetMinutes < 0 then '-' else '+';
      var h, m := Pad2(a / 60), Pad2(a % 60);
      var s := FormatUtcOffset(offsetMinutes);
      assert s == "UTC" + [sign] + h + ":" + m;
      ParseSigned(s, sign, h, m);
      assert 60 * (a / 60) + a % 60 == a;
    }
  }

  /**
   * Reading the source's label back gives the offset, except strictly
   * between -60 and 0, where it gives the offset with the opposite sign.
   */
  lemma AsWrittenReadsBack(offsetMinutes: int)
    ensures ParseUtcOffset(FormatUtcOffsetAsWritten(offsetMinutes))
         == Some(if -60 < offsetMinutes < 0 then -offsetMinutes else offsetMinutes)
  {
    if -60 < offsetMinutes < 0 {
      FormatUtcOffsetRoundTrip(-offsetMinutes);
    } else {
      FormatUtcOffsetRoundTrip(offsetMinutes);
    }
  }

  /** The finding: an offset of thirty minutes west of UTC is labelled as thirty minutes east. */
  lemma AsWrittenLosesSign()
    ensures FormatUtcOffsetAsWritten(-30) == "UTC+00:30"
    ensures FormatUtcOffset(-30) == "UTC-00:30"
    ensures FormatUtcOffsetAsWritten(-30) != FormatUtcOffset(-30)
  {
    assert TruncDiv(-30, 60) == 0;
    assert Pad2(0) == "00" && Pad2(30) == "30";
  }
}
