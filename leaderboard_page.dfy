/** `formatTime` of the leaderboard page: elapsed seconds shown as `m:ss`. */
module LeaderboardPage {
  import opened Wrappers
  import opened Digits

  /** JavaScript's `a % 60`: the remainder of division truncated towards zero,
      so it takes the sign of the dividend. */
  function JsRemainder60(a: int): (r: int)
    ensures a >= 0 ==> 0 <= r < 60 && r == a % 60
    ensures a < 0 ==> -60 < r <= 0 && (a - r) % 60 == 0
  {
    if a >= 0 then a % 60 else -((-a) % 60)
  }

  /** `Number.prototype.toString()` on an integer. */
  function IntToString(i: int): string {
    if i < 0 then "-" + NatToString(-i) else NatToString(i)
  }

  /** `padStart(2, '0')`. */
  function PadStart2(s: string): string {
    if |s| == 0 then "00" else if |s| == 1 then "0" + s else s
  }

  function FormatTime(seconds: Option<int>): (t: string)
    ensures t == "--" <==> FalsyNumber(seconds)
  {
    if FalsyNumber(seconds) then "--"
    else
      var s := seconds.value;
      var mins := IntToString(s / 60);
      var t := mins + ":" + PadStart2(IntToString(JsRemainder60(s)));
      assert t[|mins|] == ':';
      t
  }

  /** Reads `m:ss` back from the right: unpadded minutes, a colon, two digits of seconds. */
  function ParseTime(t: string): Option<int> {
    if |t| < 4 || t[|t| - 3] != ':' then None
    else
      var mins, secs := t[..|t| - 3], t[|t| - 2..];
      if AllDigits(mins) && AllDigits(secs) then Some(DigitsValue(mins) * 60 + DigitsValue(secs))
      else None
  }

  /** The seconds field: exactly two digits worth the number shown. */
  lemma SecondsField(n: nat)
    requires n < 60
    ensures var secs := PadStart2(IntToString(n));
      |secs| == 2 && AllDigits(secs) && DigitsValue(secs) == n
  {
    var d := NatToString(n);
    var secs := PadStart2(d);
    NatToStringRoundTrip(n);
    if n < 10 {
      assert d == [DigitChar(n)];
      assert secs == ['0', d[0]];
      assert secs[..1] == ['0'];
      assert DigitsValue(secs) == DigitsValue(['0']) * 10 + (d[0] as int - '0' as int);
    } else {
      assert n / 10 < 10;
      assert d == NatToString(n / 10) + [DigitChar(n % 10)];
    }
  }

  /** The minutes field: the shortest decimal form, starting with '0' only for zero. */
  lemma MinutesField(m: nat)
    ensures var mins := IntToString(m);
      |mins| >= 1 && AllDigits(mins) && DigitsValue(mins) == m && (mins[0] == '0' <==> m == 0)
      && (m == 0 ==> mins == "0")
  {
    NatToStringRoundTrip(m);
  }

  /** For a positive time the seconds field is two digits worth s mod 60, and
      the minutes field is s div 60 in decimal without padding: it starts with
      '0' only for times under a minute and has no upper bound. */
  lemma FormatTimeFields(s: int)
    requires s > 0
    ensures var t := FormatTime(Some(s));
      && |t| >= 4 && t[|t| - 3] == ':'
      && AllDigits(t[|t| - 2..]) && DigitsValue(t[|t| - 2..]) == s % 60 < 60
      && AllDigits(t[..|t| - 3]) && DigitsValue(t[..|t| - 3]) == s / 60
      && (t[0] == '0' <==> s < 60)
      && (s < 60 ==> |t| == 4)
  {
    var mins := IntToString(s / 60);
    var secs := PadStart2(IntToString(JsRemainder60(s)));
    var t := FormatTime(Some(s));
    assert t == mins + ":" + secs;
    SecondsField(s % 60);
    MinutesField(s / 60);
    assert t[..|t| - 3] == mins;
    assert t[|t| - 2..] == secs;
  }

  /** Parsing the text back as minutes and seconds gives the time shown. */
  lemma FormatTimeRoundTrip(s: int)
    requires s > 0
    ensures ParseTime(FormatTime(Some(s))) == Some(s)
  {
    FormatTimeFields(s);
  }

  lemma FormatTimeBlank()
    ensures FormatTime(None) == "--" && FormatTime(Some(0)) == "--"
  {
  }

  /** Times under a minute show a leading "0:". */
  lemma FormatTimeUnderAMinute()
    ensures FormatTime(Some(59)) == "0:59"
  {
    assert NatToString(59) == "59";
  }

  lemma FormatTimePadsSeconds()
    ensures FormatTime(Some(65)) == "1:05"
  {
    assert NatToString(5) == "5";
  }

  /** Minutes are not capped at 59. */
  lemma FormatTimeLongRun()
    ensures FormatTime(Some(7500)) == "125:00"
  {
    assert NatToString(12) == "12";
    assert NatToString(125) == "125";
  }

  /** A negative time, which a finish before the start would give, is shown
      with a sign on both fields and does not read back. */
  lemma NegativeTime()
    ensures FormatTime(Some(-5)) == "-1:-5"
    ensures ParseTime(FormatTime(Some(-5))) == None
  {
    assert NatToString(1) == "1";
    assert NatToString(5) == "5";
  }
}
