/**
  How the label's extracted text becomes a list of lines (app.py:41 and
  app.py:155): split into lines, strip each line, collapse every run of
  whitespace into one space, and drop the lines that were blank. Also the
  word count `len(s.split())` used by the name heuristics.
 */
module TextLines {
  import opened Strings

  /** Python's `str.isspace`, the `\s` of `re`, and what `split()` splits on. */
  predicate IsSpace(c: char) {
    var n := c as int;
    || 0x09 <= n <= 0x0D || 0x1C <= n <= 0x20 || n == 0x85 || n == 0xA0 || n == 0x1680
    || 0x2000 <= n <= 0x200A || n == 0x2028 || n == 0x2029 || n == 0x202F || n == 0x205F
    || n == 0x3000
  }

  /** The line boundaries of `str.splitlines`. */
  predicate IsLineBreak(c: char) {
    var n := c as int;
    || 0x0A <= n <= 0x0D || 0x1C <= n <= 0x1E || n == 0x85 || n == 0x2028 || n == 0x2029
  }

  predicate NoLineBreak(l: string) {
    forall i :: 0 <= i < |l| ==> !IsLineBreak(l[i])
  }

  /** The index of the first line break in `t`, or `|t|`. */
  function FirstBreak(t: string): (k: nat)
    ensures k <= |t| && NoLineBreak(t[..k])
    ensures k < |t| ==> IsLineBreak(t[k])
  {
    if t == [] || IsLineBreak(t[0]) then 0
    else
      var k := 1 + FirstBreak(t[1..]);
      assert t[..k] == [t[0]] + t[1..][..k - 1];
      k
  }

  /**
    `t.splitlines()`, cut at every line-break character. Python treats
    "\r\n" as one break and yields no line after a final break; here those
    give an extra empty line, which the blank-line filter removes, so the
    normalised lines are the same.
   */
  function SplitLines(t: string): (ls: seq<string>)
    ensures |ls| > 0
    ensures forall l :: l in ls ==> NoLineBreak(l)
    decreases |t|
  {
    var k := FirstBreak(t);
    if k == |t| then [t] else [t[..k]] + SplitLines(t[k + 1..])
  }

  predicate IsBlank(l: string) {
    forall i :: 0 <= i < |l| ==> IsSpace(l[i])
  }

  /**
    `re.sub(r"\s+", " ", ln.strip())`: empty exactly when the line is
    blank, and otherwise a normalised line.
   */
  function NormalizeLine(ln: string): (r: string)
    ensures r == [] <==> IsBlank(ln)
    ensures r != [] ==> IsNormalized(r)
  {
    var st := Strip(ln, IsSpace);
    var r := ReplaceRuns(st, IsSpace, ' ');
    if r != [] then
      assert r[0] == st[0] && r[|r| - 1] == st[|st| - 1];
      r
    else
      r
  }

  /** Normalising keeps every non-whitespace character of the line, in order. */
  lemma NormalizeKeepsText(ln: string)
    ensures Filter(NormalizeLine(ln), IsNotSpace) == Filter(ln, IsNotSpace)
  {
    var st := Strip(ln, IsSpace);
    StripKeeps(ln, IsSpace, IsNotSpace);
    ReplaceRunsKeeps(st, IsSpace, ' ', IsNotSpace);
  }

  predicate IsNotSpace(c: char) { !IsSpace(c) }

  /** Normalising changes every line with two whitespace characters in a row. */
  lemma NormalizeChangesDoubleSpace(s: string, i: nat)
    requires i + 1 < |s| && IsSpace(s[i]) && IsSpace(s[i + 1])
    ensures NormalizeLine(s) != s
  {
  }

  /** A line without whitespace is already normalised. */
  lemma NormalizeNoSpace(s: string)
    requires forall i :: 0 <= i < |s| ==> !IsSpace(s[i])
    ensures NormalizeLine(s) == s
  {
    LeadCountUnique(s, IsSpace, 0);
    assert s[0..] == s;
    TrailCountUnique(s, IsSpace, 0);
    var st := Strip(s, IsSpace);
    assert |st| == |s| && st == s[0..|st|];
    assert st == s;
    ReplaceRunsFixed(s, IsSpace, ' ');
  }

  /**
    Where the spaces go: a whitespace run between two parts of a line
    becomes one space between the two parts, each normalised on its own.
   */
  lemma NormalizeJoin(u: string, w: string, v: string)
    requires |u| > 0 && !IsSpace(u[|u| - 1]) && |v| > 0 && !IsSpace(v[0])
    requires |w| > 0 && forall i :: 0 <= i < |w| ==> IsSpace(w[i])
    ensures NormalizeLine(u + w + v) == NormalizeLine(u) + [' '] + NormalizeLine(v)
  {
    StripAround(u, w, v, IsSpace);
    StripKeepsEnd(u);
    StripKeepsStart(v);
    ReplaceRunsJoin(Strip(u, IsSpace), w, Strip(v, IsSpace), IsSpace, ' ');
  }

  lemma StripKeepsEnd(u: string)
    requires |u| > 0 && !IsSpace(u[|u| - 1])
    ensures var su := Strip(u, IsSpace); |su| > 0 && !IsSpace(su[|su| - 1])
  {
    StripEmptyIff(u, IsSpace);
  }

  lemma StripKeepsStart(v: string)
    requires |v| > 0 && !IsSpace(v[0])
    ensures var sv := Strip(v, IsSpace); |sv| > 0 && !IsSpace(sv[0])
  {
    StripEmptyIff(v, IsSpace);
  }

  /**
    The shape of a normalised line: not empty, no whitespace at either end,
    every whitespace character a plain space, never two in a row.
   */
  predicate IsNormalized(l: string) {
    && l != []
    && !IsSpace(l[0]) && !IsSpace(l[|l| - 1])
    && (forall i :: 0 <= i < |l| && IsSpace(l[i]) ==> l[i] == ' ')
    && (forall i :: 0 <= i < |l| - 1 ==> !(IsSpace(l[i]) && IsSpace(l[i + 1])))
  }

  /**
    The list comprehension of app.py:41 and app.py:155: the normalised
    non-blank lines, in order.
   */
  function NormalizeAll(raw: seq<string>): (lines: seq<string>)
    ensures |lines| <= |raw|
    ensures forall l :: l in lines ==> IsNormalized(l)
  {
    if raw == [] then []
    else if IsBlank(raw[0]) then NormalizeAll(raw[1..])
    else [NormalizeLine(raw[0])] + NormalizeAll(raw[1..])
  }

  /** The lines the name heuristics scan. */
  function Lines(t: string): (lines: seq<string>)
    ensures forall l :: l in lines ==> IsNormalized(l) && NoLineBreak(l)
  {
    var raw := SplitLines(t);
    NormalizeAllNoBreaks(raw);
    NormalizeAll(raw)
  }

  lemma {:induction false} NormalizeAllNoBreaks(raw: seq<string>)
    requires forall l :: l in raw ==> NoLineBreak(l)
    ensures forall l :: l in NormalizeAll(raw) ==> NoLineBreak(l)
  {
    if raw != [] {
      NormalizeAllNoBreaks(raw[1..]);
      if !IsBlank(raw[0]) {
        NormalizeKeepsNoBreak(raw[0]);
        assert NormalizeAll(raw) == [NormalizeLine(raw[0])] + NormalizeAll(raw[1..]);
      }
    }
  }

  lemma NormalizeKeepsNoBreak(ln: string)
    requires NoLineBreak(ln)
    ensures NoLineBreak(NormalizeLine(ln))
  {
    var st := Strip(ln, IsSpace);
    var k := LeadCount(ln, IsSpace);
    assert forall i :: 0 <= i < |st| ==> st[i] == ln[k + i];
    var r := NormalizeLine(ln);
    forall i | 0 <= i < |r| ensures !IsLineBreak(r[i]) {
      assert r[i] == ' ' || !IsSpace(r[i]);
    }
  }

  /** The first break is the only index with the properties `FirstBreak` promises. */
  lemma FirstBreakUnique(t: string, k: nat)
    requires k <= |t| && NoLineBreak(t[..k])
    requires k < |t| ==> IsLineBreak(t[k])
    ensures FirstBreak(t) == k
  {
    NoBreakBefore(t, k);
    NoBreakBefore(t, FirstBreak(t));
  }

  lemma NoBreakBefore(t: string, k: nat)
    requires k <= |t| && NoLineBreak(t[..k])
    ensures forall j :: 0 <= j < k ==> !IsLineBreak(t[j])
  {
    forall j | 0 <= j < k ensures !IsLineBreak(t[j]) {
      assert t[..k][j] == t[j];
    }
  }

  /** The lines `ls` put back together with the breaks `bs` between them. */
  function Interleave(ls: seq<string>, bs: string): string
    requires |ls| == |bs| + 1
    decreases |bs|
  {
    if bs == [] then ls[0] else ls[0] + [bs[0]] + Interleave(ls[1..], bs[1..])
  }

  /** The breaks of a text are its first break followed by the breaks after it. */
  lemma BreaksAfterFirst(t: string, k: nat)
    requires k == FirstBreak(t) && k < |t|
    ensures Filter(t, IsLineBreak) == [t[k]] + Filter(t[k + 1..], IsLineBreak)
  {
    var rest := t[k + 1..];
    CutAt(t, k);
    FilterAppend(t[..k] + [t[k]], rest, IsLineBreak);
    FilterAppend(t[..k], [t[k]], IsLineBreak);
    FilterNone(t[..k], IsLineBreak);
    assert Filter([t[k]], IsLineBreak) == [t[k]];
  }

  /**
    Splitting loses nothing: there is one line more than there are breaks,
    and putting the breaks back between the lines gives the text again.
   */
  lemma {:induction false} SplitLinesRoundTrip(t: string)
    ensures |SplitLines(t)| == |Filter(t, IsLineBreak)| + 1
    ensures Interleave(SplitLines(t), Filter(t, IsLineBreak)) == t
    decreases |t|
  {
    var k := FirstBreak(t);
    if k == |t| {
      assert t[..k] == t;
      FilterNone(t, IsLineBreak);
    } else {
      var rest := t[k + 1..];
      SplitLinesRoundTrip(rest);
      BreaksAfterFirst(t, k);
      SplitLinesAt(t);
      InterleaveCons(t[..k], t[k], SplitLines(rest), Filter(rest, IsLineBreak));
      CutAt(t, k);
    }
  }

  /** A text is its part before `k`, the character at `k`, and its part after. */
  lemma CutAt(t: string, k: nat)
    requires k < |t|
    ensures t == t[..k] + [t[k]] + t[k + 1..]
  {
  }

  /** Interleaving one more line and break in front. */
  lemma InterleaveCons(l: string, b: char, ls: seq<string>, bs: string)
    requires |ls| == |bs| + 1
    ensures Interleave([l] + ls, [b] + bs) == l + [b] + Interleave(ls, bs)
  {
    assert ([l] + ls)[1..] == ls && ([b] + bs)[1..] == bs;
  }

  /** Cutting at the first break: the first line, then the lines of the rest. */
  lemma SplitLinesAt(t: string)
    requires FirstBreak(t) < |t|
    ensures SplitLines(t) == [t[..FirstBreak(t)]] + SplitLines(t[FirstBreak(t) + 1..])
  {
  }

  /** A text cut at a break splits into the lines of both parts. */
  lemma {:induction false} SplitLinesAppend(u: string, b: char, v: string)
    requires IsLineBreak(b)
    ensures SplitLines(u + [b] + v) == SplitLines(u) + SplitLines(v)
    decreases |u|
  {
    if FirstBreak(u) == |u| {
      SplitLinesAppendLast(u, b, v);
    } else {
      var k := FirstBreak(u);
      var ru := u[k + 1..];
      SplitLinesAppendInner(u, b, v, k);
      SplitLinesAppend(ru, b, v);
      SplitLinesAt(u);
      LinesAssoc([u[..k]], SplitLines(ru), SplitLines(v));
    }
  }

  lemma LinesAssoc(a: seq<string>, b: seq<string>, c: seq<string>)
    ensures a + (b + c) == (a + b) + c
  {
  }

  /** The added break is the first one of `u + [b] + v` when `u` has none. */
  lemma SplitLinesAppendLast(u: string, b: char, v: string)
    requires IsLineBreak(b) && FirstBreak(u) == |u|
    ensures SplitLines(u + [b] + v) == SplitLines(u) + SplitLines(v)
  {
    var w := u + [b] + v;
    assert u[..|u|] == u;
    assert w[..|u|] == u;
    FirstBreakUnique(w, |u|);
    SplitLinesAt(w);
    assert w[|u| + 1..] == v;
  }

  /** Otherwise the first break of `u` is the first break of `u + [b] + v`. */
  lemma SplitLinesAppendInner(u: string, b: char, v: string, k: nat)
    requires k == FirstBreak(u) && k < |u|
    ensures SplitLines(u + [b] + v) == [u[..k]] + SplitLines(u[k + 1..] + [b] + v)
  {
    var w := u + [b] + v;
    assert w[..k] == u[..k];
    assert w[k] == u[k];
    FirstBreakUnique(w, k);
    SplitLinesAt(w);
    assert w[k + 1..] == u[k + 1..] + [b] + v;
  }

  /** The comprehension works line by line. */
  lemma {:induction false} NormalizeAllAppend(a: seq<string>, b: seq<string>)
    ensures NormalizeAll(a + b) == NormalizeAll(a) + NormalizeAll(b)
  {
    if a == [] {
      assert a + b == b;
    } else {
      assert (a + b)[0] == a[0] && (a + b)[1..] == a[1..] + b;
      NormalizeAllAppend(a[1..], b);
    }
  }

  /** One line is dropped when blank, and otherwise normalised. */
  lemma NormalizeAllOne(l: string)
    ensures NormalizeAll([l]) == if IsBlank(l) then [] else [NormalizeLine(l)]
  {
    assert [l][1..] == [];
  }

  /** The lines of a text cut at a break are the lines of both parts, in order. */
  lemma LinesAppend(u: string, b: char, v: string)
    requires IsLineBreak(b)
    ensures Lines(u + [b] + v) == Lines(u) + Lines(v)
  {
    SplitLinesAppend(u, b, v);
    NormalizeAllAppend(SplitLines(u), SplitLines(v));
  }

  /** A text without a break has no line when blank, and otherwise its normalised self. */
  lemma LinesOneLine(t: string)
    requires NoLineBreak(t)
    ensures Lines(t) == if IsBlank(t) then [] else [NormalizeLine(t)]
  {
    assert t[..|t|] == t;
    FirstBreakUnique(t, |t|);
    NormalizeAllOne(t);
  }

  /**
    The number of words `len(s.split())`: maximal runs of non-whitespace.
    `inWord` says whether the character before `s` ended a word.
   */
  function CountWords(s: string, inWord: bool): nat
    decreases |s|
  {
    if s == [] then 0
    else if IsSpace(s[0]) then CountWords(s[1..], false)
    else (if inWord then 0 else 1) + CountWords(s[1..], true)
  }

  /** `len(s.split())`: zero exactly when the line is blank. */
  function WordCount(s: string): (n: nat)
    ensures n == 0 <==> IsBlank(s)
  {
    NoWordsIffBlank(s);
    CountWords(s, false)
  }

  /** A whitespace character separates words: they are counted part by part. */
  lemma WordCountSplit(x: string, c: char, y: string)
    requires IsSpace(c)
    ensures WordCount(x + [c] + y) == WordCount(x) + WordCount(y)
  {
    CountWordsSplit(x, c, y, false);
  }

  lemma {:induction false} CountWordsSplit(x: string, c: char, y: string, inWord: bool)
    requires IsSpace(c)
    ensures CountWords(x + [c] + y, inWord) == CountWords(x, inWord) + CountWords(y, false)
    decreases |x|
  {
    if x == [] {
      assert x + [c] + y == [c] + y;
      assert ([c] + y)[1..] == y;
    } else {
      assert (x + [c] + y)[0] == x[0];
      assert (x + [c] + y)[1..] == x[1..] + [c] + y;
      CountWordsSplit(x[1..], c, y, !IsSpace(x[0]));
    }
  }

  /** A non-empty string without whitespace is exactly one word. */
  lemma WordCountOneWord(w: string)
    requires |w| > 0 && forall i :: 0 <= i < |w| ==> !IsSpace(w[i])
    ensures WordCount(w) == 1
  {
    OneWord(w, false);
  }

  lemma {:induction false} NoWordsIffBlank(s: string)
    ensures CountWords(s, false) == 0 <==> IsBlank(s)
    decreases |s|
  {
    if s != [] {
      NoWordsIffBlank(s[1..]);
      assert IsBlank(s) <==> IsSpace(s[0]) && IsBlank(s[1..]);
    }
  }

  /** Normalising a line keeps the number of its words, as `split()` counts them. */
  lemma WordCountNormalize(ln: string)
    ensures WordCount(NormalizeLine(ln)) == WordCount(ln)
  {
    var st := Strip(ln, IsSpace);
    CollapseKeepsWords(st, false);
    StripKeepsWords(ln);
  }

  lemma StripKeepsWords(s: string)
    ensures CountWords(Strip(s, IsSpace), false) == CountWords(s, false)
  {
    var k, r := LeadCount(s, IsSpace), Strip(s, IsSpace);
    LeadIsBlank(s);
    LeadingSpacesKeepWords(s, k);
    StripThenTail(s, IsSpace);
    TailIsBlank(s);
    TrailingSpacesKeepWords(r, s[k + |r|..], false);
  }

  /** The leading run that `strip` drops is whitespace. */
  lemma LeadIsBlank(s: string)
    ensures IsBlank(s[..LeadCount(s, IsSpace)])
  {
    var k := LeadCount(s, IsSpace);
    forall i | 0 <= i < k ensures IsSpace(s[..k][i]) {
      assert s[..k][i] == s[i];
    }
  }

  /** The trailing run that `strip` drops is whitespace. */
  lemma TailIsBlank(s: string)
    ensures var k, r := LeadCount(s, IsSpace), Strip(s, IsSpace); IsBlank(s[k + |r|..])
  {
    var k, r := LeadCount(s, IsSpace), Strip(s, IsSpace);
    var tail := s[k + |r|..];
    forall i | 0 <= i < |tail| ensures IsSpace(tail[i]) {
      assert tail[i] == s[k + |r| + i];
    }
  }

  lemma {:induction false} LeadingSpacesKeepWords(s: string, k: nat)
    requires k <= |s| && IsBlank(s[..k])
    ensures CountWords(s, false) == CountWords(s[k..], false)
  {
    if k > 0 {
      assert IsSpace(s[..k][0]);
      assert s[1..][..k - 1] == s[..k][1..];
      LeadingSpacesKeepWords(s[1..], k - 1);
      assert s[1..][k - 1..] == s[k..];
    }
  }

  lemma {:induction false} TrailingSpacesKeepWords(a: string, b: string, inWord: bool)
    requires IsBlank(b)
    ensures CountWords(a + b, inWord) == CountWords(a, inWord)
    decreases |a|
  {
    if a == [] {
      assert a + b == b;
      BlankHasNoWords(b, inWord);
    } else {
      assert (a + b)[0] == a[0] && (a + b)[1..] == a[1..] + b;
      TrailingSpacesKeepWords(a[1..], b, !IsSpace(a[0]));
    }
  }

  lemma {:induction false} BlankHasNoWords(b: string, inWord: bool)
    requires IsBlank(b)
    ensures CountWords(b, inWord) == 0
    decreases |b|
  {
    if b != [] {
      BlankHasNoWords(b[1..], false);
    }
  }

  lemma {:induction false} CollapseKeepsWords(s: string, inWord: bool)
    ensures CountWords(ReplaceRuns(s, IsSpace, ' '), inWord) == CountWords(s, inWord)
    decreases |s|
  {
    if s == [] {
    } else if IsSpace(s[0]) {
      var k := LeadCount(s, IsSpace);
      var rest := s[k..];
      assert TrimLeft(s, IsSpace) == rest;
      var rr := ReplaceRuns(rest, IsSpace, ' ');
      assert ReplaceRuns(s, IsSpace, ' ') == [' '] + rr;
      assert ([' '] + rr)[1..] == rr;
      CollapseKeepsWords(rest, false);
      var lead := s[1..][..k - 1];
      assert IsBlank(lead) by {
        forall i | 0 <= i < |lead| ensures IsSpace(lead[i]) { assert lead[i] == s[i + 1]; }
      }
      LeadingSpacesKeepWords(s[1..], k - 1);
      assert s[1..][k - 1..] == rest;
    } else {
      var rr := ReplaceRuns(s[1..], IsSpace, ' ');
      assert ReplaceRuns(s, IsSpace, ' ') == [s[0]] + rr;
      assert ([s[0]] + rr)[1..] == rr;
      CollapseKeepsWords(s[1..], true);
    }
  }

  /** A non-empty string without whitespace is one word. */
  lemma {:induction false} OneWord(s: string, inWord: bool)
    requires s != [] && forall i :: 0 <= i < |s| ==> !IsSpace(s[i])
    ensures CountWords(s, inWord) == if inWord then 0 else 1
    decreases |s|
  {
    if |s| > 1 {
      OneWord(s[1..], true);
    }
  }
}
