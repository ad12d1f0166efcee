/** `get_resolution`: the monitors' sizes as "WxH", comma-joined in monitor
    order, or "N/A" when the monitor enumeration raises. The enumeration
    (`screeninfo.get_monitors()`) is a parameter. */
module Resolution {
  import opened Wrappers
  import opened Strings
  import opened Decimal

  datatype Monitor = Monitor(width: int, height: int)

  /** What `get_monitors()` gives: the monitors in order, or an exception. */
  datatype Monitors = Enumerated(monitors: seq<Monitor>) | EnumerationFailed

  /** floppyfetch.py:64: `f"{m.width}x{m.height}"`, which holds no comma and
      reads back as its monitor. */
  function MonitorText(m: Monitor): (text: string)
    ensures ',' !in text
    ensures ParseMonitor(text) == Some(m)
  {
    var w, h := IntToString(m.width), IntToString(m.height);
    NumberLacks(m.width, 'x');
    NumberLacks(m.height, 'x');
    NumberLacks(m.width, ',');
    NumberLacks(m.height, ',');
    assert w + "x" + h == w + ['x'] + h;
    SplitAfterPiece(w, h, 'x');
    SplitWithoutSeparator(h, 'x');
    IntToStringRoundTrip(m.width);
    IntToStringRoundTrip(m.height);
    w + "x" + h
  }

  function MonitorTexts(ms: seq<Monitor>): (texts: seq<string>)
    ensures |texts| == |ms|
    ensures forall i :: 0 <= i < |ms| ==> texts[i] == MonitorText(ms[i])
  {
    if |ms| == 0 then [] else [MonitorText(ms[0])] + MonitorTexts(ms[1..])
  }

  /** Reads one "WxH" back. */
  function ParseMonitor(s: string): Option<Monitor> {
    var fields := Split(s, 'x');
    if |fields| == 2 then
      match (ParseInt(fields[0]), ParseInt(fields[1]))
      case (Some(w), Some(h)) => Some(Monitor(w, h))
      case _ => None
    else None
  }

  function ParseMonitors(texts: seq<string>): Option<seq<Monitor>> {
    if |texts| == 0 then Some([])
    else
      match (ParseMonitor(texts[0]), ParseMonitors(texts[1..]))
      case (Some(m), Some(ms)) => Some([m] + ms)
      case _ => None
  }

  /** Reads a resolution text back into the monitor list it describes. */
  function ParseResolution(s: string): Option<seq<Monitor>> {
    if s == "" then Some([]) else ParseMonitors(Split(s, ','))
  }

  lemma {:induction false} MonitorTextsRoundTrip(ms: seq<Monitor>)
    ensures NoneContains(MonitorTexts(ms), ',')
    ensures ParseMonitors(MonitorTexts(ms)) == Some(ms)
  {
    if |ms| > 0 {
      assert ParseMonitor(MonitorText(ms[0])) == Some(ms[0]);
      MonitorTextsRoundTrip(ms[1..]);
      assert MonitorTexts(ms)[1..] == MonitorTexts(ms[1..]);
      assert [ms[0]] + ms[1..] == ms;
    }
  }

  /** The reader of one monitor accepts nothing but its "WxH" text. */
  lemma ParseMonitorExact(s: string, m: Monitor)
    ensures ParseMonitor(s) == Some(m) <==> s == MonitorText(m)
  {
    if ParseMonitor(s) == Some(m) {
      var fields := Split(s, 'x');
      ParseIntExact(fields[0], m.width);
      ParseIntExact(fields[1], m.height);
      SplitThenJoin(s, 'x');
      assert fields[1..] == [fields[1]];
    }
  }

  lemma {:induction false} ParseMonitorsExact(texts: seq<string>, ms: seq<Monitor>)
    requires ParseMonitors(texts) == Some(ms)
    ensures texts == MonitorTexts(ms)
  {
    if |texts| > 0 {
      var rest :| ParseMonitors(texts[1..]) == Some(rest) && ms == [ms[0]] + rest;
      ParseMonitorExact(texts[0], ms[0]);
      ParseMonitorsExact(texts[1..], rest);
      assert texts == [texts[0]] + texts[1..];
    }
  }

  /** `get_resolution()`: "N/A" when the enumeration raises; otherwise a text
      that lists every monitor, in order, and nothing else, with one comma
      fewer than there are monitors, so no monitors give the empty text and
      never the "N/A" of a failed enumeration. */
  function GetResolution(q: Monitors): (text: string)
    ensures q.EnumerationFailed? ==> text == "N/A"
    ensures q.Enumerated? ==> ParseResolution(text) == Some(q.monitors) && text != "N/A"
    ensures q.Enumerated? && |q.monitors| == 0 ==> text == ""
    ensures q.Enumerated? && |q.monitors| > 0 ==> multiset(text)[','] == |q.monitors| - 1
  {
    match q
    case EnumerationFailed => "N/A"
    case Enumerated(ms) =>
      var texts := MonitorTexts(ms);
      MonitorTextsRoundTrip(ms);
      assert ParseResolution("N/A") == None by {
        SplitWithoutSeparator("N/A", ',');
        SplitWithoutSeparator("N/A", 'x');
      }
      if |ms| == 0 then Join(texts, ',')
      else
        JoinThenSplit(texts, ',');
        JoinSeparatorCount(texts, ',');
        Join(texts, ',')
  }

  /** The reader of a resolution accepts nothing but what `get_resolution`
      writes: a text reads back as a monitor list exactly when it is that
      list's comma-joined "WxH" texts. */
  lemma ParseResolutionExact(s: string, ms: seq<Monitor>)
    ensures ParseResolution(s) == Some(ms) <==> s == GetResolution(Enumerated(ms))
  {
    if ParseResolution(s) == Some(ms) && s != "" {
      ParseMonitorsExact(Split(s, ','), ms);
      SplitThenJoin(s, ',');
    }
  }
}
