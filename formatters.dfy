/**
 * The two number formatters of script.js that the cards use for durations
 * and distances. Their inputs are safe integers (|n| < 2^53), for which
 * JavaScript's division and remainder by 3600 and 60 are exact and its
 * number-to-string conversion is the plain decimal text.
 */
module Formatters {

  import opened Wrappers

  const SecondsPerHour: int := 3600
  const SecondsPerMinute: int := 60

  predicate IsDigit(ch: char)
  {
    '0' <= ch <= '9'
  }

  predicate AllDigits(s: string)
  {
    forall i :: 0 <= i < |s| ==> IsDigit(s[i])
  }

  function DigitChar(d: nat): (ch: char)
    requires d < 10
    ensures IsDigit(ch) && ch as int - '0' as int == d
  {
    "0123456789"[d]
  }

  /** Decimal text of a natural number, as `${n}` writes it: no sign, no leading zero. */
  function NatToDecimal(n: nat): (s: string)
    ensures |s| >= 1 && AllDigits(s)
    ensures (s[0] == '0') == (n == 0)
    decreases n
  {
    if n < 10 then [DigitChar(n)] else NatToDecimal(n / 10) + [DigitChar(n % 10)]
  }

  /** Decimal text of an integer: a minus sign before the digits when negative. */
  function IntToString(x: int): (s: string)
    ensures |s| >= 1
    ensures x >= 0 ==> AllDigits(s)
  {
    if x < 0 then "-" + NatToDecimal(-x) else NatToDecimal(x)
  }

  /** The value of a digit string. */
  function DecimalValue(s: string): nat
    requires AllDigits(s)
  {
    if s == [] then 0 else 10 * DecimalValue(s[..|s| - 1]) + (s[|s| - 1] as int - '0' as int)
  }

  /** Reading an integer back from its text. */
  function ParseInt(s: string): int
  {
    if |s| > 0 && s[0] == '-' && AllDigits(s[1..]) then -(DecimalValue(s[1..]) as int)
    else if AllDigits(s) then DecimalValue(s)
    else 0
  }

  lemma {:induction false} DecimalRoundTrip(n: nat)
    ensures DecimalValue(NatToDecimal(n)) == n
    decreases n
  {
    if n >= 10 {
      DecimalRoundTrip(n / 10);
      var s := NatToDecimal(n);
      assert s[..|s| - 1] == NatToDecimal(n / 10);
    }
  }

  /** The decimal text of an integer reads back as that integer. */
  lemma IntToStringRoundTrip(x: int)
    ensures ParseInt(IntToString(x)) == x
  {
    if x < 0 {
      DecimalRoundTrip(-x);
      assert IntToString(x)[1..] == NatToDecimal(-x);
    } else {
      DecimalRoundTrip(x);
    }
  }

  /** Distinct naturals have distinct decimal texts. */
  lemma NatToDecimalInjective(m: nat, n: nat)
    requires NatToDecimal(m) == NatToDecimal(n)
    ensures m == n
  {
    DecimalRoundTrip(m);
    DecimalRoundTrip(n);
  }

  /** `Math.trunc(a / b)` for a positive divisor: the quotient rounded toward zero. */
  function JsQuot(a: int, b: int): int
    requires b > 0
  {
    if a >= 0 then a / b else -((-a) / b)
  }

  /** JavaScript's `%` on a positive divisor: the remainder takes the sign of the dividend. */
  function JsRem(a: int, b: int): (r: int)
    requires b > 0
    ensures a == b * JsQuot(a, b) + r
    ensures a >= 0 ==> 0 <= r < b
    ensures a < 0 ==> -b < r <= 0
  {
    if a >= 0 then a % b else -((-a) % b)
  }

  /**
   * `formatDuration(seconds)`: '-' when the value is missing or 0;
   * otherwise whole hours `Math.floor(s / 3600)` and whole minutes of the rest
   * `Math.floor((s % 3600) / 60)`, written "<h>h <m>m", or "<m>m" when there
   * are no hours. Dafny's `/` by a positive divisor is Math.floor of the quotient.
   */
  function FormatDuration(seconds: Option<int>): (text: string)
    ensures text == "-" <==> seconds.None? || seconds.value == 0
    ensures text != "-" ==> |text| >= 2 && text[|text| - 1] == 'm'
  {
    if seconds.None? || seconds.value == 0 then "-"
    else
      var s := seconds.value;
      var hours := s / SecondsPerHour;
      var minutes := JsRem(s, SecondsPerHour) / SecondsPerMinute;
      if hours > 0 then IntToString(hours) + "h " + IntToString(minutes) + "m"
      else IntToString(minutes) + "m"
  }

  /** A missing or zero duration shows as '-'. */
  lemma FormatDurationMissing(seconds: Option<int>)
    requires seconds.None? || seconds.value == 0
    ensures FormatDuration(seconds) == "-"
  {
  }

  /**
   * A positive duration of h hours, m minutes (0..59) and r seconds (0..59)
   * shows as "<h>h <m>m", or as "<m>m" when h is 0; the seconds are dropped.
   */
  lemma FormatDurationOf(h: nat, m: nat, r: nat)
    requires m < 60 && r < 60 && 3600 * h + 60 * m + r > 0
    ensures FormatDuration(Some(3600 * h + 60 * m + r)) ==
              if h > 0 then NatToDecimal(h) + "h " + NatToDecimal(m) + "m" else NatToDecimal(m) + "m"
  {
    var s := 3600 * h + 60 * m + r;
    DivideHours(s, h, 60 * m + r);
    DivideMinutes(60 * m + r, m, r);
    FormatDurationIsHoursMinutes(s);
  }

  /** Whole hours and the rest of a duration, stated without division. */
  lemma DivideHours(s: nat, q: nat, rest: nat)
    requires s == 3600 * q + rest && rest < 3600
    ensures s / 3600 == q && s % 3600 == rest
  {
  }

  /** Whole minutes of less than an hour, stated without division. */
  lemma DivideMinutes(s: nat, q: nat, rest: nat)
    requires s == 60 * q + rest && rest < 60
    ensures s / 60 == q
  {
  }

  /** From 1 to 59 seconds the duration shows as "0m". */
  lemma FormatDurationUnderAMinute(s: int)
    requires 0 < s < 60
    ensures FormatDuration(Some(s)) == "0m"
  {
    FormatDurationOf(0, 0, s);
  }

  /** For a non-negative duration the minutes shown are 0..59 and the hours are whole hours. */
  lemma DurationFields(s: nat)
    ensures 0 <= JsRem(s, SecondsPerHour) / SecondsPerMinute < 60
    ensures 3600 * (s / SecondsPerHour) + 60 * (JsRem(s, SecondsPerHour) / SecondsPerMinute) <= s
    ensures s < 3600 * (s / SecondsPerHour) + 60 * (JsRem(s, SecondsPerHour) / SecondsPerMinute) + 60
  {
  }

  /** The position of the first 'h' in a string, or |s|. */
  function IndexOfH(s: string): (k: nat)
    ensures k <= |s|
    ensures forall i :: 0 <= i < k ==> s[i] != 'h'
    ensures k < |s| ==> s[k] == 'h'
  {
    if s == [] then 0 else if s[0] == 'h' then 0 else 1 + IndexOfH(s[1..])
  }

  /** The text for h hours and m minutes, as `formatDuration` writes it. */
  function HoursMinutesText(h: nat, m: nat): string
  {
    if h > 0 then NatToDecimal(h) + "h " + NatToDecimal(m) + "m" else NatToDecimal(m) + "m"
  }

  lemma FormatDurationIsHoursMinutes(s: nat)
    requires s > 0
    ensures FormatDuration(Some(s)) == HoursMinutesText(s / 3600, (s % 3600) / 60)
    ensures s / 60 == 60 * (s / 3600) + (s % 3600) / 60
  {
  }

  /** Hours and minutes can be read back from the text. */
  lemma HoursMinutesTextInjective(h: nat, m: nat, h': nat, m': nat)
    requires HoursMinutesText(h, m) == HoursMinutesText(h', m')
    ensures h == h' && m == m'
  {
    var a := HoursMinutesText(h, m);
    var hd, md, hd', md' := NatToDecimal(h), NatToDecimal(m), NatToDecimal(h'), NatToDecimal(m');
    if h > 0 && h' > 0 {
      WithHours(hd, md);
      WithHours(hd', md');
      NatToDecimalInjective(h, h');
      NatToDecimalInjective(m, m');
    } else if h > 0 {
      WithHours(hd, md);
      WithoutHours(md');
    } else if h' > 0 {
      WithHours(hd', md');
      WithoutHours(md);
    } else {
      WithoutHours(md);
      WithoutHours(md');
      NatToDecimalInjective(m, m');
    }
  }

  lemma WithHours(hd: string, md: string)
    requires AllDigits(hd) && AllDigits(md)
    ensures var t := hd + "h " + md + "m";
      && IndexOfH(t) == |hd| && t[..|hd|] == hd && t[|hd| + 2..|t| - 1] == md
  {
    var t := hd + "h " + md + "m";
    assert t == hd + "h" + (" " + md + "m");
    DigitsBeforeH(hd, " " + md + "m");
  }

  lemma WithoutHours(md: string)
    requires AllDigits(md)
    ensures var t := md + "m"; IndexOfH(t) == |t| && t[..|t| - 1] == md
  {
    var t := md + "m";
    assert forall i :: 0 <= i < |t| ==> t[i] != 'h' by {
      forall i | 0 <= i < |t| ensures t[i] != 'h' {
        if i < |md| { assert t[i] == md[i]; }
      }
    }
    IndexOfNoH(t);
  }

  lemma {:induction false} IndexOfNoH(t: string)
    requires forall i :: 0 <= i < |t| ==> t[i] != 'h'
    ensures IndexOfH(t) == |t|
  {
    if t != [] {
      IndexOfNoH(t[1..]);
    }
  }

  /**
   * Two positive durations show the same text exactly when they hold the same
   * number of whole minutes.
   */
  lemma FormatDurationSameText(s: nat, t: nat)
    requires s > 0 && t > 0
    ensures FormatDuration(Some(s)) == FormatDuration(Some(t)) <==> s / 60 == t / 60
  {
    FormatDurationIsHoursMinutes(s);
    FormatDurationIsHoursMinutes(t);
    if FormatDuration(Some(s)) == FormatDuration(Some(t)) {
      HoursMinutesTextInjective(s / 3600, (s % 3600) / 60, t / 3600, (t % 3600) / 60);
    }
    if s / 60 == t / 60 {
      assert s / 3600 == (s / 60) / 60 && t / 3600 == (t / 60) / 60;
    }
  }

  /** In digits followed by 'h', the first 'h' sits right after the digits. */
  lemma DigitsBeforeH(d: string, rest: string)
    requires AllDigits(d)
    ensures IndexOfH(d + "h" + rest) == |d|
  {
    var s := d + "h" + rest;
    var k := IndexOfH(s);
    assert s[|d|] == 'h';
  }

  /**
   * What `formatDistance` returns: a text, or the kilometre form
   * `${(meters / 1000).toFixed(2)} km` for 1000 m and more, whose
   * floating-point rounding is not modelled.
   */
  datatype DistanceText = Text(text: string) | Kilometres(meters: int)

  /** `formatDistance(meters)`: '-' when missing or 0; "<meters> m" below 1000. */
  function FormatDistance(meters: Option<int>): (r: DistanceText)
    ensures r.Text? <==> meters.None? || meters.value < 1000
    ensures r.Text? ==> (r.text == "-" <==> meters.None? || meters.value == 0)
    ensures r.Text? && r.text != "-" ==> |r.text| >= 3 && r.text[|r.text| - 2..] == " m"
    ensures r.Kilometres? ==> r.meters == meters.value
  {
    if meters.None? || meters.value == 0 then Text("-")
    else if meters.value >= 1000 then Kilometres(meters.value)
    else Text(IntToString(meters.value) + " m")
  }

  /**
   * A missing or zero distance shows as '-'; any other distance below 1000 m
   * shows as its metres followed by " m", from which the number reads back.
   */
  lemma FormatDistanceBelowAKilometre(meters: Option<int>)
    requires meters.None? || meters.value < 1000
    ensures meters.None? || meters.value == 0 ==> FormatDistance(meters) == Text("-")
    ensures meters.Some? && meters.value != 0 ==>
              var t := FormatDistance(meters).text;
              && t == IntToString(meters.value) + " m"
              && ParseInt(t[..|t| - 2]) == meters.value
  {
    if meters.Some? && meters.value != 0 {
      var t := FormatDistance(meters).text;
      assert t[..|t| - 2] == IntToString(meters.value);
      IntToStringRoundTrip(meters.value);
    }
  }
}
