/**
 * Rendering of a whole-second count as the `HH:MM:SS` text the tracker
 * displays: `{:02}:{:02}:{:02}` of hours, minutes and seconds, where the
 * hours are unbounded and may be printed with more than two digits.
 *
 * `ParseClock` is an independent reading of such a text back into seconds;
 * its round trip with `Render` shows that every count has its own text.
 */
module ClockFormat {

  import opened Wrappers

  /** The text shown by a tracker that has not yet rendered any time. */
  const Placeholder: string := "--:--:--"

  predicate IsDigit(c: char) {
    '0' <= c <= '9'
  }

  predicate AllDigits(s: string) {
    forall i :: 0 <= i < |s| ==> IsDigit(s[i])
  }

  function DigitValue(c: char): nat
    requires IsDigit(c)
  {
    c as int - '0' as int
  }

  function DigitChar(d: nat): (c: char)
    requires d < 10
    ensures IsDigit(c) && DigitValue(c) == d
  {
    ('0' as int + d) as char
  }

  /** Decimal notation of `n` without leading zeros (Rust's `{}` for an unsigned integer). */
  function Decimal(n: nat): (s: string)
    ensures AllDigits(s)
    ensures |s| == 1 <==> n < 10
    ensures 10 <= n < 100 ==> |s| == 2
    ensures |s| > 1 ==> s[0] != '0'
    decreases n
  {
    if n < 10 then [DigitChar(n)] else Decimal(n / 10) + [DigitChar(n % 10)]
  }

  /** The value of a string of decimal digits, most significant digit first. */
  function ParseDecimal(s: string): nat
    requires AllDigits(s)
    decreases |s|
  {
    if s == [] then 0 else ParseDecimal(s[..|s| - 1]) * 10 + DigitValue(s[|s| - 1])
  }

  lemma {:induction false} DecimalRoundTrip(n: nat)
    ensures ParseDecimal(Decimal(n)) == n
    decreases n
  {
    if n >= 10 {
      var s := Decimal(n);
      assert s[..|s| - 1] == Decimal(n / 10);
      DecimalRoundTrip(n / 10);
    }
  }

  /** Rust's `{:02}`: at least two digits, padded on the left with a zero. */
  function Pad2(n: nat): (s: string)
    ensures AllDigits(s) && ParseDecimal(s) == n
    ensures |s| >= 2
    ensures n < 100 <==> |s| == 2
    ensures |s| > 2 ==> s[0] != '0'
  {
    DecimalRoundTrip(n);
    if n < 10 then
      var s := "0" + Decimal(n);
      assert s[..1] == "0";
      s
    else Decimal(n)
  }

  /** A count of seconds split into hours, minutes and seconds. */
  datatype Hms = Hms(hours: nat, minutes: nat, seconds: nat)

  function Split(total: nat): (r: Hms)
    ensures r.hours * 3600 + r.minutes * 60 + r.seconds == total
    ensures r.minutes < 60 && r.seconds < 60
  {
    var rest := total % 3600;
    Hms(total / 3600, rest / 60, total % 60)
  }

  /** Any split with minutes and seconds below sixty is the one `Split` gives. */
  lemma SplitUnique(total: nat, h: nat, m: nat, s: nat)
    requires m < 60 && s < 60
    ensures h * 3600 + m * 60 + s == total <==> Split(total) == Hms(h, m, s)
  {
    if h * 3600 + m * 60 + s == total {
      var r := Split(total);
      assert m * 60 + s < 3600;
      assert r.hours == h;
      assert r.minutes * 60 + r.seconds == m * 60 + s;
    }
  }

  /**
   * `{:02}:{:02}:{:02}` of the three fields: with minutes and seconds below
   * sixty, the hour digits are followed by two colon-led two-digit fields.
   */
  function FormatHms(hours: nat, minutes: nat, seconds: nat): (txt: string)
    ensures minutes < 60 && seconds < 60 ==>
              |txt| == |Pad2(hours)| + 6 && txt[|txt| - 3] == ':' && txt[|txt| - 6] == ':'
    ensures |txt| >= 8 && IsDigit(txt[0])
  {
    Pad2(hours) + ":" + Pad2(minutes) + ":" + Pad2(seconds)
  }

  /** Reading a formatted text back gives the seconds its fields add up to. */
  lemma ParseFormat(hours: nat, minutes: nat, seconds: nat)
    requires minutes < 60 && seconds < 60
    ensures ParseClock(FormatHms(hours, minutes, seconds)) == Some(hours * 3600 + minutes * 60 + seconds)
  {
    var hh, mm, ss := Pad2(hours), Pad2(minutes), Pad2(seconds);
    var txt := FormatHms(hours, minutes, seconds);
    assert txt == hh + ":" + mm + ":" + ss;
    var n := |txt|;
    assert txt[..n - 6] == hh;
    assert txt[n - 5..n - 3] == mm by { assert txt[n - 5..] == mm + ":" + ss; }
    assert txt[n - 2..] == ss;
  }

  /** The text written for `total` seconds: `hours:minutes:seconds`, each at least two digits. */
  function Render(total: nat): (txt: string)
    ensures |txt| >= 8 && txt[|txt| - 3] == ':' && txt[|txt| - 6] == ':'
    ensures |txt| == 8 <==> total < 360000
    ensures IsDigit(txt[0]) && txt != Placeholder
  {
    var hms := Split(total);
    assert total < 360000 <==> hms.hours < 100;
    FormatHms(hms.hours, hms.minutes, hms.seconds)
  }

  /**
   * Reads a `H:MM:SS` text back: hours of any width, then exactly two
   * digits of minutes and of seconds, each below sixty.
   */
  function ParseClock(txt: string): Option<nat> {
    var n := |txt|;
    if n < 8 || txt[n - 3] != ':' || txt[n - 6] != ':' then None
    else
      var hh, mm, ss := txt[..n - 6], txt[n - 5..n - 3], txt[n - 2..];
      if !(AllDigits(hh) && AllDigits(mm) && AllDigits(ss)) then None
      else
        var h, m, s := ParseDecimal(hh), ParseDecimal(mm), ParseDecimal(ss);
        if m < 60 && s < 60 then Some(h * 3600 + m * 60 + s) else None
  }

  /** Reading a rendered text back gives the count it was rendered from. */
  lemma ParseRender(total: nat)
    ensures ParseClock(Render(total)) == Some(total)
  {
    var hms := Split(total);
    ParseFormat(hms.hours, hms.minutes, hms.seconds);
  }

  /** Two different second counts are never rendered as the same text. */
  lemma RenderInjective(a: nat, b: nat)
    ensures Render(a) == Render(b) <==> a == b
  {
    if Render(a) == Render(b) {
      ParseRender(a);
      ParseRender(b);
    }
  }

  /**
   * The fields of the text: the part before the second-to-last colon is the
   * hour count, followed by exactly two-digit minutes and seconds.
   */
  lemma RenderFields(total: nat)
    ensures var txt := Render(total);
            var hms := Split(total);
            txt == Pad2(hms.hours) + ":" + Pad2(hms.minutes) + ":" + Pad2(hms.seconds) &&
            |Pad2(hms.minutes)| == 2 && |Pad2(hms.seconds)| == 2 &&
            hms.hours == total / 3600 && hms.minutes == (total % 3600) / 60 &&
            hms.seconds == total % 60
  {
  }

  /** Worked renderings: one second, one of each field, and an hour count wider than two digits. */
  lemma RenderExamples()
    ensures Render(1) == "00:00:01"
    ensures Render(3661) == "01:01:01"
    ensures Render(360000) == "100:00:00"
  {
  }
}
