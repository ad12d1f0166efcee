/** The few Python `str` operations the probes use, on `string` (a sequence
    of Unicode scalar values): `strip`, `split` on one separator character,
    `join`, substring test `in`, `lower` (ASCII letters) and
    `os.path.basename` on POSIX paths. */
module Strings {

  /** Python's `str.isspace()` for one character: the characters `str.strip()`
      with no argument removes. */
  predicate IsSpace(c: char) {
    || c == ' '
    || '\t' <= c <= '\r'               // \t \n \x0b \x0c \r
    || '\U{1C}' <= c <= '\U{1F}'       // file, group, record and unit separators
    || c == '\U{85}' || c == '\U{A0}' || c == '\U{1680}'
    || '\U{2000}' <= c <= '\U{200A}'
    || c == '\U{2028}' || c == '\U{2029}' || c == '\U{202F}' || c == '\U{205F}' || c == '\U{3000}'
  }

  predicate AllSpace(s: string) {
    forall c :: c in s ==> IsSpace(c)
  }

  /** Neither end of `s` is whitespace: what `strip()` returns. */
  predicate IsStripped(s: string) {
    s == [] || (!IsSpace(s[0]) && !IsSpace(s[|s| - 1]))
  }

  /** Python's `s.lstrip()`: the longest suffix of `s` that does not start with
      whitespace (`StripLeadingSuffix`). */
  function StripLeading(s: string): (r: string)
    ensures r == [] || !IsSpace(r[0])
  {
    if |s| > 0 && IsSpace(s[0]) then StripLeading(s[1..]) else s
  }

  lemma {:induction false} StripLeadingSuffix(s: string)
    ensures var r := StripLeading(s);
            |r| <= |s| && r == s[|s| - |r|..] && AllSpace(s[..|s| - |r|])
  {
    if |s| > 0 && IsSpace(s[0]) {
      StripLeadingSuffix(s[1..]);
      var r := StripLeading(s);
      assert s[..|s| - |r|] == [s[0]] + s[1..][..|s| - 1 - |r|];
    }
  }

  /** Python's `s.rstrip()`: the longest prefix of `s` that does not end with
      whitespace (`StripTrailingPrefix`). */
  function StripTrailing(s: string): (r: string)
    ensures r == [] || !IsSpace(r[|r| - 1])
  {
    if |s| > 0 && IsSpace(s[|s| - 1]) then StripTrailing(s[..|s| - 1]) else s
  }

  lemma {:induction false} StripTrailingPrefix(s: string)
    ensures var r := StripTrailing(s);
            |r| <= |s| && r == s[..|r|] && AllSpace(s[|r|..])
  {
    if |s| > 0 && IsSpace(s[|s| - 1]) {
      StripTrailingPrefix(s[..|s| - 1]);
      var r := StripTrailing(s);
      assert s[|r|..] == s[..|s| - 1][|r|..] + [s[|s| - 1]];
    }
  }

  /** Python's `s.strip()`. */
  function Strip(s: string): (r: string)
    ensures IsStripped(r)
  {
    var lead := StripLeading(s);
    StripTrailingPrefix(lead);
    StripTrailing(lead)
  }

  lemma {:induction false} StripLeadingSkips(w: string, x: string)
    requires AllSpace(w)
    ensures StripLeading(w + x) == StripLeading(x)
  {
    if w != [] {
      assert (w + x)[1..] == w[1..] + x;
      StripLeadingSkips(w[1..], x);
    } else {
      assert w + x == x;
    }
  }

  lemma {:induction false} StripTrailingSkips(x: string, w: string)
    requires AllSpace(w)
    ensures StripTrailing(x + w) == StripTrailing(x)
  {
    if w != [] {
      assert (x + w)[..|x + w| - 1] == x + w[..|w| - 1];
      StripTrailingSkips(x, w[..|w| - 1]);
    } else {
      assert x + w == x;
    }
  }

  /** `strip()` removes exactly the surrounding whitespace: the stripped text
      is recovered from any whitespace padding around it. */
  lemma StripPadded(w1: string, x: string, w2: string)
    requires AllSpace(w1) && AllSpace(w2) && IsStripped(x)
    ensures Strip(w1 + x + w2) == x
  {
    assert w1 + x + w2 == w1 + (x + w2);
    StripLeadingSkips(w1, x + w2);
    if x == [] {
      assert x + w2 == w2;
      StripLeadingSkips(w2, "");
      assert w2 + "" == w2;
    } else {
      assert StripLeading(x + w2) == x + w2;
    }
    StripTrailingSkips(x, w2);
  }

  lemma StrippedUnchanged(x: string)
    requires IsStripped(x)
    ensures Strip(x) == x
  {
    assert StripLeading(x) == x;
  }

  /** A text of whitespace strips to nothing. */
  lemma StripAllSpace(w: string)
    requires AllSpace(w)
    ensures Strip(w) == ""
  {
    StripLeadingSkips(w, "");
    assert w + "" == w;
  }

  /** Whitespace in front of a text does not change what it strips to. */
  lemma StripPrependSpace(w: string, x: string)
    requires AllSpace(w)
    ensures Strip(w + x) == Strip(x)
  {
    StripLeadingSkips(w, x);
  }

  /** Whitespace after a text does not change what it strips to. */
  lemma StripAppendSpace(x: string, w: string)
    requires AllSpace(w)
    ensures Strip(x + w) == Strip(x)
  {
    var lead := StripLeading(x);
    StripLeadingSuffix(x);
    var pad := x[..|x| - |lead|];
    assert x == pad + lead;
    if lead == [] {
      assert AllSpace(x + w) by {
        assert x == pad;
      }
      StripAllSpace(x + w);
      StripAllSpace(x);
    } else {
      assert x + w == pad + (lead + w);
      StripLeadingSkips(pad, lead + w);
      assert StripLeading(lead + w) == lead + w by {
        assert (lead + w)[0] == lead[0];
      }
      StripTrailingSkips(lead, w);
    }
  }

  /** `strip()` is idempotent. */
  lemma StripIdempotent(s: string)
    ensures Strip(Strip(s)) == Strip(s)
  {
    StrippedUnchanged(Strip(s));
  }

  /** Python's `s.split(sep)` for a one-character separator: the maximal
      pieces between separators, so `""` splits into `[""]`. */
  function Split(s: string, sep: char): (parts: seq<string>)
    ensures |parts| >= 1
    ensures forall i :: 0 <= i < |parts| ==> sep !in parts[i]
  {
    if |s| == 0 then [""]
    else
      var rest := Split(s[1..], sep);
      if s[0] == sep then [""] + rest
      else [[s[0]] + rest[0]] + rest[1..]
  }

  /** The total length of some texts. */
  function TotalLength(parts: seq<string>): nat {
    if |parts| == 0 then 0 else |parts[0]| + TotalLength(parts[1..])
  }

  /** Python's `sep.join(parts)` for a one-character separator: every piece
      once, and one separator between each two. */
  function Join(parts: seq<string>, sep: char): (s: string)
    ensures |s| == TotalLength(parts) + (if |parts| == 0 then 0 else |parts| - 1)
    ensures |parts| > 0 ==> StartsWith(s, parts[0])
  {
    if |parts| == 0 then ""
    else if |parts| == 1 then parts[0]
    else parts[0] + [sep] + Join(parts[1..], sep)
  }

  predicate NoneContains(parts: seq<string>, sep: char) {
    forall i :: 0 <= i < |parts| ==> sep !in parts[i]
  }

  /** Joining the pieces of a split gives back the text. */
  lemma {:induction false} SplitThenJoin(s: string, sep: char)
    ensures Join(Split(s, sep), sep) == s
  {
    if |s| > 0 {
      var rest := Split(s[1..], sep);
      SplitThenJoin(s[1..], sep);
      if s[0] == sep {
        assert ([""] + rest)[1..] == rest;
        assert s == [sep] + s[1..];
      } else {
        var parts := [[s[0]] + rest[0]] + rest[1..];
        assert parts[1..] == rest[1..];
        if |rest| == 1 {
          assert s == [s[0]] + s[1..];
        } else {
          assert s == [s[0]] + (rest[0] + [sep] + Join(rest[1..], sep));
        }
      }
    }
  }

  lemma {:induction false} SplitWithoutSeparator(p: string, sep: char)
    requires sep !in p
    ensures Split(p, sep) == [p]
  {
    if |p| > 0 {
      SplitWithoutSeparator(p[1..], sep);
      assert [p[0]] + p[1..] == p;
    }
  }

  lemma {:induction false} SplitAfterPiece(p: string, t: string, sep: char)
    requires sep !in p
    ensures Split(p + [sep] + t, sep) == [p] + Split(t, sep)
  {
    var s := p + [sep] + t;
    if p == [] {
      assert s[1..] == t;
    } else {
      assert s[1..] == p[1..] + [sep] + t;
      SplitAfterPiece(p[1..], t, sep);
      assert [s[0]] + p[1..] == p;
    }
  }

  /** Splitting a concatenation: the last piece of the first text and the
      first piece of the second are glued together. */
  lemma {:induction false} SplitConcat(x: string, y: string, sep: char)
    ensures var a, b := Split(x, sep), Split(y, sep);
            Split(x + y, sep) == a[..|a| - 1] + [a[|a| - 1] + b[0]] + b[1..]
  {
    var a, b := Split(x, sep), Split(y, sep);
    if x == [] {
      assert x + y == y;
      assert a == [""];
      assert [a[0] + b[0]] + b[1..] == b by {
        assert a[0] + b[0] == b[0];
      }
    } else {
      var x' := x[1..];
      assert (x + y)[1..] == x' + y;
      SplitConcat(x', y, sep);
      var a' := Split(x', sep);
      var r := Split(x' + y, sep);
      var glued := a'[|a'| - 1] + b[0];
      var front := a'[..|a'| - 1];
      assert r == front + [glued] + b[1..];
      if x[0] == sep {
        assert Split(x + y, sep) == [""] + r;
        assert a == [""] + a';
        SplitConcatSep(a', b, front, glued);
      } else if |a'| == 1 {
        assert Split(x + y, sep) == [[x[0]] + r[0]] + r[1..];
        assert a == [[x[0]] + a'[0]];
        assert r[0] == glued && r[1..] == b[1..];
        assert [x[0]] + glued == a[0] + b[0];
      } else {
        assert Split(x + y, sep) == [[x[0]] + r[0]] + r[1..];
        assert a == [[x[0]] + a'[0]] + a'[1..];
        SplitConcatPiece(x[0], a', b, front, glued, r);
      }
    }
  }

  lemma SplitConcatSep(a': seq<string>, b: seq<string>, front: seq<string>, glued: string)
    requires |a'| >= 1 && |b| >= 1 && front == a'[..|a'| - 1]
    ensures var a := [""] + a';
            [""] + (front + [glued] + b[1..]) == a[..|a| - 1] + [glued] + b[1..]
  {
    var a := [""] + a';
    assert a[..|a| - 1] == [""] + front;
  }

  lemma SplitConcatPiece(c: char, a': seq<string>, b: seq<string>, front: seq<string>, glued: string, r: seq<string>)
    requires |a'| >= 2 && |b| >= 1 && front == a'[..|a'| - 1]
    requires r == front + [glued] + b[1..]
    ensures var a := [[c] + a'[0]] + a'[1..];
            [[c] + r[0]] + r[1..] == a[..|a| - 1] + [glued] + b[1..]
  {
    var a := [[c] + a'[0]] + a'[1..];
    assert r[0] == a'[0];
    assert r[1..] == front[1..] + [glued] + b[1..];
    assert a[..|a| - 1] == [[c] + a'[0]] + front[1..];
  }

  /** The pieces of a whitespace text are whitespace. */
  lemma {:induction false} SplitAllSpace(w: string, sep: char)
    requires AllSpace(w)
    ensures forall p :: p in Split(w, sep) ==> AllSpace(p)
  {
    if w != [] {
      var r := Split(w[1..], sep);
      assert AllSpace(w[1..]) by {
        forall c | c in w[1..] ensures IsSpace(c) { assert c in w; }
      }
      SplitAllSpace(w[1..], sep);
      assert w[0] in w;
      if w[0] != sep {
        assert AllSpace([w[0]] + r[0]) by {
          assert r[0] in r;
        }
        forall p | p in r[1..] ensures AllSpace(p) { assert p in r; }
      }
    }
  }

  /** Splitting a text with whitespace in front: whitespace pieces, then the
      first piece of the text with whitespace before it, then the text's
      other pieces. */
  lemma SplitAfterSpace(w: string, y: string, sep: char) returns (front: seq<string>, pad: string)
    requires AllSpace(w)
    ensures var b := Split(y, sep); Split(w + y, sep) == front + [pad + b[0]] + b[1..]
    ensures AllSpace(pad) && forall p :: p in front ==> AllSpace(p)
  {
    var a := Split(w, sep);
    SplitConcat(w, y, sep);
    SplitAllSpace(w, sep);
    front, pad := a[..|a| - 1], a[|a| - 1];
    assert pad in a;
    forall p | p in front ensures AllSpace(p) { assert p in a; }
  }

  /** Splitting a text with whitespace after it: the text's pieces but the
      last, then its last piece with whitespace after it, then whitespace
      pieces. */
  lemma SplitBeforeSpace(x: string, w: string, sep: char) returns (pad: string, back: seq<string>)
    requires AllSpace(w)
    ensures var a := Split(x, sep); Split(x + w, sep) == a[..|a| - 1] + [a[|a| - 1] + pad] + back
    ensures AllSpace(pad) && forall p :: p in back ==> AllSpace(p)
  {
    var b := Split(w, sep);
    SplitConcat(x, w, sep);
    SplitAllSpace(w, sep);
    pad, back := b[0], b[1..];
    assert pad in b;
    forall p | p in back ensures AllSpace(p) { assert p in b; }
  }

  /** A text is its stripped form with whitespace on either side. */
  lemma StripSurroundings(s: string) returns (w1: string, w2: string)
    ensures AllSpace(w1) && AllSpace(w2) && s == w1 + Strip(s) + w2
  {
    var lead := StripLeading(s);
    StripLeadingSuffix(s);
    StripTrailingPrefix(lead);
    w1, w2 := s[..|s| - |lead|], lead[|Strip(s)|..];
    assert s == w1 + lead;
    assert lead == Strip(s) + w2;
  }

  /** Splitting a join of separator-free pieces gives back the pieces. */
  lemma {:induction false} JoinThenSplit(parts: seq<string>, sep: char)
    requires |parts| >= 1 && NoneContains(parts, sep)
    ensures Split(Join(parts, sep), sep) == parts
  {
    if |parts| == 1 {
      SplitWithoutSeparator(parts[0], sep);
    } else {
      JoinThenSplit(parts[1..], sep);
      SplitAfterPiece(parts[0], Join(parts[1..], sep), sep);
      assert [parts[0]] + parts[1..] == parts;
    }
  }

  /** A join of `n >= 1` separator-free pieces holds exactly `n - 1` separators. */
  lemma {:induction false} JoinSeparatorCount(parts: seq<string>, sep: char)
    requires |parts| >= 1 && NoneContains(parts, sep)
    ensures multiset(Join(parts, sep))[sep] == |parts| - 1
  {
    assert multiset(parts[0])[sep] == 0;
    if |parts| > 1 {
      JoinSeparatorCount(parts[1..], sep);
      var tail := Join(parts[1..], sep);
      assert multiset(parts[0] + [sep] + tail) == multiset(parts[0]) + multiset([sep]) + multiset(tail);
    }
  }

  predicate StartsWith(s: string, prefix: string) {
    |prefix| <= |s| && s[..|prefix|] == prefix
  }

  /** Python's substring test `t in s` (`ContainsOccurs`): a text contains
      each of its prefixes, and nothing longer than itself. */
  predicate Contains(s: string, t: string)
    ensures StartsWith(s, t) ==> Contains(s, t)
    ensures Contains(s, t) ==> |t| <= |s|
  {
    StartsWith(s, t) || (|s| > 0 && Contains(s[1..], t))
  }

  predicate OccursAt(s: string, t: string, i: int) {
    0 <= i && i + |t| <= |s| && s[i..i + |t|] == t
  }

  /** `Contains` is the substring relation: `t` occurs at some position of `s`. */
  lemma {:induction false} ContainsOccurs(s: string, t: string)
    ensures Contains(s, t) <==> exists i :: OccursAt(s, t, i)
  {
    if StartsWith(s, t) {
      assert OccursAt(s, t, 0);
    } else if |s| > 0 {
      ContainsOccurs(s[1..], t);
      if exists i :: OccursAt(s[1..], t, i) {
        var i :| OccursAt(s[1..], t, i);
        assert s[1..][i..i + |t|] == s[i + 1..i + 1 + |t|];
        assert OccursAt(s, t, i + 1);
      }
      if exists i :: OccursAt(s, t, i) {
        var i :| OccursAt(s, t, i);
        assert i != 0;
        assert s[1..][i - 1..i - 1 + |t|] == s[i..i + |t|];
        assert OccursAt(s[1..], t, i - 1);
      }
    } else {
      assert forall i :: !OccursAt(s, t, i);
    }
  }

  /** A text containing `u` contains every prefix of `u`. */
  lemma {:induction false} ContainsPrefixOf(s: string, u: string, t: string)
    requires Contains(s, u) && StartsWith(u, t)
    ensures Contains(s, t)
  {
    if StartsWith(s, u) {
      assert s[..|t|] == s[..|u|][..|t|];
    } else {
      ContainsPrefixOf(s[1..], u, t);
    }
  }

  function LowerChar(c: char): char {
    if 'A' <= c <= 'Z' then (c as int + 32) as char else c
  }

  /** Python's `s.lower()` restricted to ASCII letters. */
  function Lower(s: string): (r: string)
    ensures |r| == |s|
    ensures forall i :: 0 <= i < |r| ==> !('A' <= r[i] <= 'Z')
    ensures forall i :: 0 <= i < |s| ==>
              if 'A' <= s[i] <= 'Z' then r[i] as int == s[i] as int + 32 else r[i] == s[i]
  {
    seq(|s|, i requires 0 <= i < |s| => LowerChar(s[i]))
  }

  /** Index just past the last `c` in `s`, or 0 when there is none
      (Python's `s.rfind(c) + 1`). */
  function AfterLast(s: string, c: char): (i: nat)
    ensures i <= |s|
    ensures i > 0 ==> s[i - 1] == c
    ensures c !in s[i..]
  {
    if |s| == 0 then 0
    else if s[|s| - 1] == c then |s|
    else
      var i := AfterLast(s[..|s| - 1], c);
      assert s[i..] == s[..|s| - 1][i..] + [s[|s| - 1]];
      i
  }

  /** `os.path.basename` on a POSIX path: the longest suffix holding no `/`. */
  function Basename(path: string): (name: string)
    ensures '/' !in name && |name| <= |path|
    ensures path == path[..|path| - |name|] + name
    ensures |name| < |path| ==> path[|path| - |name| - 1] == '/'
  {
    path[AfterLast(path, '/')..]
  }
}
