/** `get_uptime`: the time since boot as whole seconds, split into days,
    hours, minutes and seconds with chained `divmod`, and rendered as
    "D days H hours M minutes" (the seconds are computed and dropped).
    The boot time and the current time are parameters. */
module Uptime {
  import opened Wrappers
  import opened Strings
  import opened Decimal

  const SecondsPerDay := 86400
  const SecondsPerHour := 3600
  const SecondsPerMinute := 60

  /** Python's `int(x)` on a float: truncation toward zero. */
  function Truncate(x: real): (n: int)
    ensures x >= 0.0 ==> n as real <= x < n as real + 1.0
    ensures x < 0.0 ==> n as real - 1.0 < x <= n as real
  {
    if x >= 0.0 then x.Floor else -((-x).Floor)
  }

  /** Python's `divmod(a, b)` for a positive divisor: the quotient is rounded
      toward minus infinity, so the remainder lies in `[0, b)` whatever the
      sign of `a`. */
  function DivMod(a: int, b: int): (qr: (int, int))
    requires b > 0
    ensures qr.0 * b + qr.1 == a && 0 <= qr.1 < b
  {
    (a / b, a % b)
  }

  datatype Span = Span(days: int, hours: int, minutes: int, seconds: int)

  /** floppyfetch.py:23-25: `days, remainder = divmod(uptime_seconds, 86400)` and so on. */
  function Decompose(uptime: int): (t: Span)
    ensures t.days * SecondsPerDay + t.hours * SecondsPerHour + t.minutes * SecondsPerMinute + t.seconds == uptime
    ensures 0 <= t.hours < 24 && 0 <= t.minutes < 60 && 0 <= t.seconds < 60
    ensures t.days >= 0 <==> uptime >= 0
  {
    var (days, afterDays) := DivMod(uptime, SecondsPerDay);
    var (hours, afterHours) := DivMod(afterDays, SecondsPerHour);
    var (minutes, seconds) := DivMod(afterHours, SecondsPerMinute);
    Span(days, hours, minutes, seconds)
  }

  /** Any split of `uptime` into days and in-range hours, minutes and seconds
      is the one `Decompose` computes. */
  lemma DecomposeUnique(uptime: int, t: Span)
    requires t.days * SecondsPerDay + t.hours * SecondsPerHour + t.minutes * SecondsPerMinute + t.seconds == uptime
    requires 0 <= t.hours < 24 && 0 <= t.minutes < 60 && 0 <= t.seconds < 60
    ensures t == Decompose(uptime)
  {
    var d := Decompose(uptime);
    var below := t.hours * SecondsPerHour + t.minutes * SecondsPerMinute + t.seconds;
    var belowD := d.hours * SecondsPerHour + d.minutes * SecondsPerMinute + d.seconds;
    assert 0 <= below < SecondsPerDay && 0 <= belowD < SecondsPerDay;
    assert t.days == d.days;
    assert t.hours == d.hours;
    assert t.minutes == d.minutes;
  }

  /** Reads "D days H hours M minutes" back into its three numbers. */
  function ParseUptime(s: string): Option<(int, int, int)> {
    var words := Split(s, ' ');
    if |words| == 6 && words[1] == "days" && words[3] == "hours" && words[5] == "minutes" then
      match (ParseInt(words[0]), ParseInt(words[2]), ParseInt(words[4]))
      case (Some(d), Some(h), Some(m)) => Some((d, h, m))
      case _ => None
    else None
  }

  /** floppyfetch.py:26: the f-string of days, hours and minutes, which reads
      back as exactly those three numbers. */
  function FormatSpan(t: Span): (text: string)
    ensures ParseUptime(text) == Some((t.days, t.hours, t.minutes))
  {
    var d, h, m := IntToString(t.days), IntToString(t.hours), IntToString(t.minutes);
    NumberLacks(t.days, ' ');
    NumberLacks(t.hours, ' ');
    NumberLacks(t.minutes, ' ');
    UptimeTextNesting(d, h, m);
    SplitUptimeWords(d, h, m);
    IntToStringRoundTrip(t.days);
    IntToStringRoundTrip(t.hours);
    IntToStringRoundTrip(t.minutes);
    d + " days " + h + " hours " + m + " minutes"
  }

  /** floppyfetch.py:22-26 from the whole seconds on: the text of the
      chained `divmod` decomposition. */
  function FormatUptime(uptime: int): (text: string)
    ensures var t := Decompose(uptime);
            ParseUptime(text) == Some((t.days, t.hours, t.minutes))
  {
    FormatSpan(Decompose(uptime))
  }

  /** `get_uptime()`, with `psutil.boot_time()` and `datetime.now().timestamp()`
      as parameters: the text of the whole seconds elapsed since boot. */
  function GetUptime(now: real, bootTime: real): (text: string)
    ensures var t := Decompose(Truncate(now - bootTime));
            ParseUptime(text) == Some((t.days, t.hours, t.minutes))
  {
    FormatUptime(Truncate(now - bootTime))
  }

  lemma UptimeTextNesting(d: string, h: string, m: string)
    ensures d + " days " + h + " hours " + m + " minutes"
         == d + [' '] + ("days" + [' '] + (h + [' '] + ("hours" + [' '] + (m + [' '] + "minutes"))))
  {
    assert " minutes" == [' '] + "minutes";
    assert " hours " == [' '] + "hours" + [' '];
    assert " days " == [' '] + "days" + [' '];
  }

  lemma SplitMinutesWords(m: string)
    requires ' ' !in m
    ensures Split(m + [' '] + "minutes", ' ') == [m, "minutes"]
  {
    SplitWithoutSeparator("minutes", ' ');
    SplitAfterPiece(m, "minutes", ' ');
  }

  lemma SplitHoursWords(h: string, m: string)
    requires ' ' !in h && ' ' !in m
    ensures Split(h + [' '] + ("hours" + [' '] + (m + [' '] + "minutes")), ' ') == [h, "hours", m, "minutes"]
  {
    var r4 := m + [' '] + "minutes";
    SplitMinutesWords(m);
    SplitAfterPiece("hours", r4, ' ');
    SplitAfterPiece(h, "hours" + [' '] + r4, ' ');
  }

  /** The words of the uptime text, for any three space-free numbers. */
  lemma SplitUptimeWords(d: string, h: string, m: string)
    requires ' ' !in d && ' ' !in h && ' ' !in m
    ensures Split(d + [' '] + ("days" + [' '] + (h + [' '] + ("hours" + [' '] + (m + [' '] + "minutes")))), ' ')
         == [d, "days", h, "hours", m, "minutes"]
  {
    var r2 := h + [' '] + ("hours" + [' '] + (m + [' '] + "minutes"));
    SplitHoursWords(h, m);
    SplitAfterPiece("days", r2, ' ');
    SplitAfterPiece(d, "days" + [' '] + r2, ' ');
  }

  /** The reader accepts nothing but the f-string: a text reads back as days,
      hours and minutes exactly when it is their "D days H hours M minutes". */
  lemma ParseUptimeExact(s: string, d: int, h: int, m: int)
    ensures ParseUptime(s) == Some((d, h, m)) <==> s == FormatSpan(Span(d, h, m, 0))
  {
    if ParseUptime(s) == Some((d, h, m)) {
      var words, text := Split(s, ' '), FormatSpan(Span(d, h, m, 0));
      ParseIntExact(words[0], d);
      ParseIntExact(words[2], h);
      ParseIntExact(words[4], m);
      NumberLacks(d, ' ');
      NumberLacks(h, ' ');
      NumberLacks(m, ' ');
      UptimeTextNesting(words[0], words[2], words[4]);
      SplitUptimeWords(words[0], words[2], words[4]);
      assert Split(text, ' ') == words;
      SplitThenJoin(s, ' ');
      SplitThenJoin(text, ' ');
    }
  }

  /** The whole minutes of a decomposition are the uptime's floor-divided minutes. */
  lemma WholeMinutes(uptime: int)
    ensures var t := Decompose(uptime);
            t.days * 1440 + t.hours * 60 + t.minutes == uptime / SecondsPerMinute
  {
    var t := Decompose(uptime);
    assert uptime == (t.days * 1440 + t.hours * 60 + t.minutes) * SecondsPerMinute + t.seconds;
  }

  /** The seconds never show: two uptimes give the same text exactly when
      they fall in the same whole minute. */
  lemma FormatUptimeDropsSeconds(u1: int, u2: int)
    ensures FormatUptime(u1) == FormatUptime(u2) <==> u1 / SecondsPerMinute == u2 / SecondsPerMinute
  {
    var t1, t2 := Decompose(u1), Decompose(u2);
    WholeMinutes(u1);
    WholeMinutes(u2);
    if FormatUptime(u1) == FormatUptime(u2) {
      assert ParseUptime(FormatUptime(u1)) == ParseUptime(FormatUptime(u2));
    }
    if u1 / SecondsPerMinute == u2 / SecondsPerMinute {
      var t := Span(t2.days, t2.hours, t2.minutes, t1.seconds);
      DecomposeUnique(u1, t);
    }
  }

  /** A machine booted 90061 seconds ago (one day, one hour, one minute and one second). */
  lemma UptimeExample()
    ensures GetUptime(1_000_090_061.5, 1_000_000_000.0) == "1 days 1 hours 1 minutes"
  {
    assert Truncate(90061.5) == 90061;
    assert Decompose(90061) == Span(1, 1, 1, 1);
    OneOfEachText();
  }

  /** One second more than a day, an hour and a minute reads "1 days 1 hours 1 minutes". */
  lemma OneOfEachText()
    ensures FormatSpan(Span(1, 1, 1, 1)) == "1 days 1 hours 1 minutes"
  {
    OneRendersAsOne();
  }

  lemma OneRendersAsOne()
    ensures IntToString(1) == "1"
  {
    assert NatToString(1) == [DigitChar(1)];
  }
}
