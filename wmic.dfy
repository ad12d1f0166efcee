/** The text parsing of the two `wmic` probes on Windows: `get_cpu_wmic`
    reads the processor name after "Name=", and `get_gpu` takes the second
    non-blank line of a video-controller query. Running the commands, their
    timeouts and the GPUtil background query are parameters. */
module Wmic {
  import opened Wrappers
  import opened Strings
  import opened Environment

  const NameTag := "Name="

  /** `re.search(r'Name=(.+)', s)` can match at `k`: the tag, then at least one
      character that `.` matches (anything but a newline). */
  predicate NameMatchAt(s: string, k: int) {
    0 <= k && k + |NameTag| < |s| && s[k..k + |NameTag|] == NameTag && s[k + |NameTag|] != '\n'
  }

  /** The leftmost match position at or after `from`. */
  function FindNameFrom(s: string, from: nat): (k: Option<nat>)
    requires from <= |s|
    ensures k.Some? ==> from <= k.value && NameMatchAt(s, k.value)
    ensures k.Some? ==> forall j :: from <= j < k.value ==> !NameMatchAt(s, j)
    ensures k.None? ==> forall j :: from <= j ==> !NameMatchAt(s, j)
    decreases |s| - from
  {
    if from == |s| then None
    else if NameMatchAt(s, from) then Some(from)
    else FindNameFrom(s, from + 1)
  }

  /** The greedy group `(.+)`: from `start` up to the next newline or the end. */
  function RestOfLine(s: string, start: nat): (line: string)
    requires start <= |s|
    ensures start + |line| <= |s| && line == s[start..start + |line|]
    ensures '\n' !in line
    ensures start + |line| == |s| || s[start + |line|] == '\n'
    decreases |s| - start
  {
    if start == |s| || s[start] == '\n' then "" else [s[start]] + RestOfLine(s, start + 1)
  }

  /** `match.group(1)` of `re.search(r'Name=(.+)', s)`, or `None` without a match. */
  function SearchName(s: string): (group: Option<string>)
    ensures group.None? <==> forall k :: !NameMatchAt(s, k)
    ensures group.Some? ==> group.value != "" && '\n' !in group.value
    ensures group.Some? ==>
              exists k :: && NameMatchAt(s, k)
                          && (forall j :: 0 <= j < k ==> !NameMatchAt(s, j))
                          && group.value == RestOfLine(s, k + |NameTag|)
  {
    match FindNameFrom(s, 0)
    case None => None
    case Some(k) =>
      assert forall j :: 0 <= j < k ==> !NameMatchAt(s, j);
      Some(RestOfLine(s, k + |NameTag|))
  }

  /** The run of `wmic cpu get Name /value` (0.5 s timeout): it raised, or it
      finished with its standard output (`None` when that is not valid UTF-8)
      and the bytes it wrote to standard error. */
  datatype CpuQuery = CpuQueryRaised | CpuQueryDone(stdout: Option<string>, stderr: seq<bv8>)

  /** `get_cpu_wmic()`; `processor` is `platform.processor()`, the fallback. */
  function GetCpuWmic(q: CpuQuery, processor: string): (cpu: string)
    ensures q.CpuQueryRaised? ==> cpu == processor
    ensures q.CpuQueryDone? && (|q.stderr| > 0 || q.stdout.None?) ==> cpu == processor
    ensures q.CpuQueryDone? && |q.stderr| == 0 && q.stdout.Some? ==>
              var found := SearchName(Strip(q.stdout.value));
              && (found.None? ==> cpu == processor)
              && (found.Some? ==> cpu == Strip(found.value))
  {
    match q
    case CpuQueryRaised => processor
    case CpuQueryDone(stdout, stderr) =>
      if |stderr| > 0 then processor
      else
        match stdout
        case None => processor
        case Some(text) =>
          match SearchName(Strip(text))
          case Some(group) => Strip(group)
          case None => processor
  }

  /** A line starting with the tag matches at once, and the group is the rest of the line. */
  lemma SearchNameAtStart(name: string)
    requires name != "" && '\n' !in name
    ensures SearchName(NameTag + name) == Some(name)
  {
    var x := NameTag + name;
    assert NameMatchAt(x, 0);
    assert FindNameFrom(x, 0) == Some(0);
    var line := RestOfLine(x, |NameTag|);
    assert x[|NameTag|..] == name;
    assert line == name;
  }

  /** A clean answer: "Name=" and a processor name on one line, surrounded by
      blank lines, yields that name. */
  lemma GetCpuWmicReadsName(before: string, name: string, after: string, processor: string)
    requires AllSpace(before) && AllSpace(after)
    requires name != "" && IsStripped(name) && '\n' !in name
    ensures GetCpuWmic(CpuQueryDone(Some(before + NameTag + name + after), []), processor) == name
  {
    StripAnswer(before, name, after);
    SearchNameAtStart(name);
    StrippedUnchanged(name);
  }

  lemma StripAnswer(before: string, name: string, after: string)
    requires AllSpace(before) && AllSpace(after)
    requires name != "" && IsStripped(name)
    ensures Strip(before + NameTag + name + after) == NameTag + name
  {
    var x := NameTag + name;
    assert IsStripped(x);
    assert before + NameTag + name + after == before + x + after;
    StripPadded(before, x, after);
  }

  /** Standard error output always means the fallback, whatever was printed. */
  lemma GetCpuWmicStderrFallback(stdout: Option<string>, stderr: seq<bv8>, processor: string)
    requires |stderr| > 0
    ensures GetCpuWmic(CpuQueryDone(stdout, stderr), processor) == processor
  {
  }

  /** A line as `strip()` leaves it that is also non-blank. */
  predicate Clean(line: string) {
    line != "" && IsStripped(line)
  }

  /** `[line.strip() for line in pieces]`. */
  function StripEach(pieces: seq<string>): (lines: seq<string>)
    ensures |lines| == |pieces|
    ensures forall i :: 0 <= i < |pieces| ==> lines[i] == Strip(pieces[i])
  {
    seq(|pieces|, i requires 0 <= i < |pieces| => Strip(pieces[i]))
  }

  /** The non-empty texts, in order. */
  function NonEmpty(texts: seq<string>): (kept: seq<string>)
    ensures |kept| <= |texts|
    ensures forall t :: t in kept ==> t in texts && t != ""
  {
    if |texts| == 0 then []
    else (if texts[0] != "" then [texts[0]] else []) + NonEmpty(texts[1..])
  }

  /** floppyfetch.py:130: `[line.strip() for line in pieces if line.strip()]`:
      the stripped pieces that are not blank. */
  function StrippedNonBlank(pieces: seq<string>): (lines: seq<string>)
    ensures |lines| <= |pieces|
    ensures forall l :: l in lines ==> Clean(l)
  {
    var stripped := StripEach(pieces);
    assert forall t :: t in stripped ==> IsStripped(t);
    NonEmpty(stripped)
  }

  lemma {:induction false} NonEmptyAppend(a: seq<string>, b: seq<string>)
    ensures NonEmpty(a + b) == NonEmpty(a) + NonEmpty(b)
  {
    if |a| == 0 {
      assert a + b == b;
    } else {
      assert (a + b)[0] == a[0];
      assert (a + b)[1..] == a[1..] + b;
      NonEmptyAppend(a[1..], b);
    }
  }

  /** Only empty texts are dropped. */
  lemma {:induction false} NonEmptyDropsEmpty(texts: seq<string>)
    requires forall t :: t in texts ==> t == ""
    ensures NonEmpty(texts) == []
  {
    if |texts| > 0 {
      assert texts[0] in texts;
      assert forall t :: t in texts[1..] ==> t == "" by {
        forall t | t in texts[1..] ensures t == "" { assert t in texts; }
      }
      NonEmptyDropsEmpty(texts[1..]);
    }
  }

  /** Non-empty texts are all kept. */
  lemma {:induction false} NonEmptyKeepsAll(texts: seq<string>)
    requires forall t :: t in texts ==> t != ""
    ensures NonEmpty(texts) == texts
  {
    if |texts| > 0 {
      assert texts[0] in texts;
      assert forall t :: t in texts[1..] ==> t != "" by {
        forall t | t in texts[1..] ensures t != "" { assert t in texts; }
      }
      NonEmptyKeepsAll(texts[1..]);
      FirstAndRest(texts);
    }
  }

  lemma FirstAndRest(texts: seq<string>)
    requires |texts| > 0
    ensures [texts[0]] + texts[1..] == texts
  {
  }

  /** The comprehension works piece by piece: it distributes over concatenation. */
  lemma StrippedNonBlankAppend(a: seq<string>, b: seq<string>)
    ensures StrippedNonBlank(a + b) == StrippedNonBlank(a) + StrippedNonBlank(b)
  {
    StripEachAppend(a, b);
    NonEmptyAppend(StripEach(a), StripEach(b));
  }

  lemma StripEachAppend(a: seq<string>, b: seq<string>)
    ensures StripEach(a + b) == StripEach(a) + StripEach(b)
  {
    var l, r := StripEach(a + b), StripEach(a) + StripEach(b);
    forall i | 0 <= i < |a| + |b| ensures l[i] == r[i] {
      if i < |a| {
        assert (a + b)[i] == a[i];
      } else {
        assert (a + b)[i] == b[i - |a|];
      }
    }
  }

  /** Blank pieces are dropped. */
  lemma StrippedNonBlankDropsBlank(pieces: seq<string>)
    requires forall p :: p in pieces ==> AllSpace(p)
    ensures StrippedNonBlank(pieces) == []
  {
    var stripped := StripEach(pieces);
    forall t | t in stripped ensures t == "" {
      var i :| 0 <= i < |stripped| && stripped[i] == t;
      assert pieces[i] in pieces;
      StripAllSpace(pieces[i]);
    }
    NonEmptyDropsEmpty(stripped);
  }

  /** Pieces that are clean lines padded with whitespace on either side give
      exactly those lines, in order. */
  lemma StrippedNonBlankPadded(pieces: seq<string>, before: seq<string>, lines: seq<string>, after: seq<string>)
    requires |pieces| == |before| == |lines| == |after|
    requires forall i :: 0 <= i < |pieces| ==> pieces[i] == before[i] + lines[i] + after[i]
    requires forall i :: 0 <= i < |pieces| ==> AllSpace(before[i]) && AllSpace(after[i]) && Clean(lines[i])
    ensures StrippedNonBlank(pieces) == lines
  {
    forall i | 0 <= i < |pieces| ensures StripEach(pieces)[i] == lines[i] {
      StripPadded(before[i], lines[i], after[i]);
    }
    assert StripEach(pieces) == lines;
    forall t | t in lines ensures t != "" {
      var i :| 0 <= i < |lines| && lines[i] == t;
    }
    NonEmptyKeepsAll(lines);
  }

  /** Lines that are already clean pass through the comprehension unchanged. */
  lemma StrippedNonBlankKeepsClean(lines: seq<string>)
    requires forall l :: l in lines ==> Clean(l)
    ensures StrippedNonBlank(lines) == lines
  {
    forall i | 0 <= i < |lines| ensures StripEach(lines)[i] == lines[i] {
      assert lines[i] in lines;
      StrippedUnchanged(lines[i]);
    }
    assert StripEach(lines) == lines;
    NonEmptyKeepsAll(lines);
  }

  lemma InitAndLast(texts: seq<string>)
    requires |texts| > 0
    ensures texts[..|texts| - 1] + [texts[|texts| - 1]] == texts
  {
  }

  /** Two pieces that strip alike give the same lines. */
  lemma StrippedNonBlankSingle(x: string, y: string)
    requires Strip(x) == Strip(y)
    ensures StrippedNonBlank([x]) == StrippedNonBlank([y])
  {
    assert StripEach([x]) == StripEach([y]);
  }

  /** Blank pieces in front of a piece add nothing. */
  lemma StrippedNonBlankBlankFront(front: seq<string>, piece: string, rest: seq<string>)
    requires forall p :: p in front ==> AllSpace(p)
    ensures StrippedNonBlank(front + [piece] + rest) == StrippedNonBlank([piece] + rest)
  {
    StrippedNonBlankAppend(front, [piece] + rest);
    StrippedNonBlankDropsBlank(front);
    assert front + [piece] + rest == front + ([piece] + rest);
  }

  /** Blank pieces after a piece add nothing. */
  lemma StrippedNonBlankBlankBack(front: seq<string>, piece: string, rest: seq<string>)
    requires forall p :: p in rest ==> AllSpace(p)
    ensures StrippedNonBlank(front + [piece] + rest) == StrippedNonBlank(front + [piece])
  {
    StrippedNonBlankAppend(front + [piece], rest);
    StrippedNonBlankDropsBlank(rest);
  }

  /** Replacing one piece by another that strips alike keeps the lines. */
  lemma StrippedNonBlankReplace(front: seq<string>, x: string, y: string, rest: seq<string>)
    requires Strip(x) == Strip(y)
    ensures StrippedNonBlank(front + [x] + rest) == StrippedNonBlank(front + [y] + rest)
  {
    StrippedNonBlankAppend(front + [x], rest);
    StrippedNonBlankAppend(front, [x]);
    StrippedNonBlankAppend(front + [y], rest);
    StrippedNonBlankAppend(front, [y]);
    StrippedNonBlankSingle(x, y);
  }

  /** Whitespace in front of a text adds no line. */
  lemma SplitLinesLeadingSpace(w: string, y: string)
    requires AllSpace(w)
    ensures StrippedNonBlank(Split(w + y, '\n')) == StrippedNonBlank(Split(y, '\n'))
  {
    var b := Split(y, '\n');
    var front, pad := SplitAfterSpace(w, y, '\n');
    StripPrependSpace(pad, b[0]);
    StrippedNonBlankBlankFront(front, pad + b[0], b[1..]);
    StrippedNonBlankReplace([], pad + b[0], b[0], b[1..]);
    assert [] + [pad + b[0]] + b[1..] == [pad + b[0]] + b[1..];
    assert [] + [b[0]] + b[1..] == b;
  }

  /** Whitespace after a text adds no line. */
  lemma SplitLinesTrailingSpace(x: string, w: string)
    requires AllSpace(w)
    ensures StrippedNonBlank(Split(x + w, '\n')) == StrippedNonBlank(Split(x, '\n'))
  {
    var a := Split(x, '\n');
    var front, last := a[..|a| - 1], a[|a| - 1];
    var pad, back := SplitBeforeSpace(x, w, '\n');
    StripAppendSpace(last, pad);
    StrippedNonBlankBlankBack(front, last + pad, back);
    StrippedNonBlankReplace(front, last + pad, last, []);
    assert front + [last + pad] + [] == front + [last + pad];
    InitAndLast(a);
    assert front + [last] + [] == a;
  }

  /** Whitespace around a text adds no line. */
  lemma SplitLinesPadded(w1: string, m: string, w2: string)
    requires AllSpace(w1) && AllSpace(w2)
    ensures StrippedNonBlank(Split(w1 + m + w2, '\n')) == StrippedNonBlank(Split(m, '\n'))
  {
    SplitLinesLeadingSpace(w1, m + w2);
    SplitLinesTrailingSpace(m, w2);
    assert w1 + m + w2 == w1 + (m + w2);
  }

  /** The `.strip()` of the whole output before the split never changes the
      lines the comprehension keeps. */
  lemma StripBeforeSplitIrrelevant(text: string)
    ensures StrippedNonBlank(Split(Strip(text), '\n')) == StrippedNonBlank(Split(text, '\n'))
  {
    var w1, w2 := StripSurroundings(text);
    SplitLinesPadded(w1, Strip(text), w2);
  }

  /** floppyfetch.py:130: the stripped, non-blank lines of a command's output,
      which are those of its newline-separated pieces. */
  function NonBlankLines(text: string): (lines: seq<string>)
    ensures lines == StrippedNonBlank(Split(text, '\n'))
  {
    StripBeforeSplitIrrelevant(text);
    StrippedNonBlank(Split(Strip(text), '\n'))
  }

  /** floppyfetch.py:132-133 (and floppyfetch.py:140-141): the second line,
      when there are at least two. */
  function SecondLine(text: string): (line: Option<string>)
    ensures line.Some? <==> |NonBlankLines(text)| >= 2
    ensures line.Some? ==> line.value == NonBlankLines(text)[1] && Clean(line.value)
  {
    var lines := NonBlankLines(text);
    if |lines| >= 2 then
      assert lines[1] in lines;
      Some(lines[1])
    else None
  }

  /** The run of one `wmic path win32_VideoController` query (0.5 s timeout):
      it raised (timeout, non-zero exit, output not valid UTF-8) or gave its
      output. */
  datatype GpuQuery = GpuQueryRaised | GpuQueryDone(text: string)

  /** `get_gpu()`. `byName` and `byCaption` are the two queries (the second
      runs only when the first gives fewer than two lines); `gputilName` is
      what the GPUtil background query put into `result[0]` within its 0.3 s
      join, if anything. */
  function GetGpu(system: string, byName: GpuQuery, byCaption: GpuQuery, gputilName: Option<string>): (gpu: string)
    ensures !OnWindows(system) ==> gpu == "N/A"
    ensures OnWindows(system) && byName.GpuQueryDone? && |NonBlankLines(byName.text)| >= 2 ==>
              gpu == NonBlankLines(byName.text)[1]
    ensures OnWindows(system) && byName.GpuQueryDone? && |NonBlankLines(byName.text)| < 2 && byCaption.GpuQueryDone? ==>
              gpu == if |NonBlankLines(byCaption.text)| >= 2 then NonBlankLines(byCaption.text)[1] else "N/A"
    ensures OnWindows(system) && (byName.GpuQueryRaised? || (|NonBlankLines(byName.text)| < 2 && byCaption.GpuQueryRaised?)) ==>
              gpu == gputilName.GetOr("N/A")
  {
    if !OnWindows(system) then "N/A"
    else
      match byName
      case GpuQueryRaised => gputilName.GetOr("N/A")
      case GpuQueryDone(nameText) =>
        match SecondLine(nameText)
        case Some(line) => line
        case None =>
          match byCaption
          case GpuQueryRaised => gputilName.GetOr("N/A")
          case GpuQueryDone(captionText) => SecondLine(captionText).GetOr("N/A")
  }

  /** Output made of clean lines with no newline inside is read back as
      exactly those lines. */
  lemma NonBlankLinesOfCleanText(lines: seq<string>)
    requires forall l :: l in lines ==> Clean(l) && '\n' !in l
    ensures NonBlankLines(Join(lines, '\n')) == lines
  {
    if |lines| > 0 {
      assert Split(Join(lines, '\n'), '\n') == lines by {
        assert NoneContains(lines, '\n') by {
          forall i | 0 <= i < |lines| ensures '\n' !in lines[i] { assert lines[i] in lines; }
        }
        JoinThenSplit(lines, '\n');
      }
      StrippedNonBlankKeepsClean(lines);
    }
  }

  /** A video-controller answer as wmic prints it: blank lines, a header
      line, blank lines, the first adapter's name padded with whitespace
      (spaces, the "\r\r" before each newline), then anything. The probe
      reports the first adapter's name. */
  lemma GetGpuReadsFirstAdapter(lead: seq<string>, header: string, gap: seq<string>,
                                pad1: string, adapter: string, pad2: string, others: seq<string>,
                                byCaption: GpuQuery, gputilName: Option<string>)
    requires forall p :: p in lead ==> AllSpace(p) && '\n' !in p
    requires forall p :: p in gap ==> AllSpace(p) && '\n' !in p
    requires Strip(header) != "" && '\n' !in header
    requires AllSpace(pad1) && AllSpace(pad2) && Clean(adapter) && '\n' !in pad1 + adapter + pad2
    requires forall p :: p in others ==> '\n' !in p
    ensures var pieces := lead + [header] + gap + [pad1 + adapter + pad2] + others;
            GetGpu("Windows", GpuQueryDone(Join(pieces, '\n')), byCaption, gputilName) == adapter
  {
    var pieces := lead + [header] + gap + [pad1 + adapter + pad2] + others;
    AnswerPiecesSplit(lead, header, gap, pad1 + adapter + pad2, others);
    AnswerPiecesLines(lead, header, gap, pad1, adapter, pad2, others);
    var lines := NonBlankLines(Join(pieces, '\n'));
    assert lines == [Strip(header), adapter] + StrippedNonBlank(others);
    assert lines[1] == adapter;
  }

  /** The newline-free pieces of the answer are read back by the split. */
  lemma AnswerPiecesSplit(lead: seq<string>, header: string, gap: seq<string>, padded: string, others: seq<string>)
    requires forall p :: p in lead ==> '\n' !in p
    requires forall p :: p in gap ==> '\n' !in p
    requires '\n' !in header && '\n' !in padded
    requires forall p :: p in others ==> '\n' !in p
    ensures var pieces := lead + [header] + gap + [padded] + others;
            Split(Join(pieces, '\n'), '\n') == pieces
  {
    var pieces := lead + [header] + gap + [padded] + others;
    assert NoneContains(pieces, '\n') by {
      forall i | 0 <= i < |pieces| ensures '\n' !in pieces[i] {
        assert pieces[i] in lead || pieces[i] in gap || pieces[i] == header || pieces[i] == padded || pieces[i] in others;
      }
    }
    JoinThenSplit(pieces, '\n');
  }

  /** The answer's lines: the header, the adapter, then the lines of the rest. */
  lemma AnswerPiecesLines(lead: seq<string>, header: string, gap: seq<string>,
                          pad1: string, adapter: string, pad2: string, others: seq<string>)
    requires forall p :: p in lead ==> AllSpace(p)
    requires forall p :: p in gap ==> AllSpace(p)
    requires Strip(header) != ""
    requires AllSpace(pad1) && AllSpace(pad2) && Clean(adapter)
    ensures var pieces := lead + [header] + gap + [pad1 + adapter + pad2] + others;
            StrippedNonBlank(pieces) == [Strip(header), adapter] + StrippedNonBlank(others)
  {
    StrippedNonBlankOneLine(header);
    StrippedNonBlankPadded([pad1 + adapter + pad2], [pad1], [adapter], [pad2]);
    StrippedNonBlankDropsBlank(lead);
    StrippedNonBlankDropsBlank(gap);
    StrippedNonBlankFiveParts(lead, [header], gap, [pad1 + adapter + pad2], others);
  }

  /** A single non-blank piece gives its stripped text. */
  lemma StrippedNonBlankOneLine(piece: string)
    requires Strip(piece) != ""
    ensures StrippedNonBlank([piece]) == [Strip(piece)]
  {
    assert StripEach([piece]) == [Strip(piece)];
  }

  lemma StrippedNonBlankFiveParts(a: seq<string>, b: seq<string>, c: seq<string>, d: seq<string>, e: seq<string>)
    ensures StrippedNonBlank(a + b + c + d + e) ==
            StrippedNonBlank(a) + StrippedNonBlank(b) + StrippedNonBlank(c) + StrippedNonBlank(d) + StrippedNonBlank(e)
  {
    StrippedNonBlankAppend(a + b + c + d, e);
    StrippedNonBlankAppend(a + b + c, d);
    StrippedNonBlankAppend(a + b, c);
    StrippedNonBlankAppend(a, b);
  }
}
