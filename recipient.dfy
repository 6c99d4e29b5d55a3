/**
  The recipient-name heuristics that name the output files: the scan of
  `guess_recipient_from_pdf_bytes` (app.py:34-59) and the simpler inline
  scan that the form actually runs on the crop's text (app.py:149-161).
  Both read the normalised lines of the extracted text (module TextLines).
 */
module Recipient {
  import opened Wrappers
  import opened Strings
  import opened TextLines

  /** The name used when no line qualifies. */
  const DEFAULT_NAME: string := "destinatario"

  /** A line containing this (after lower-casing) heads the recipient block. */
  const MARKER: string := "destinat"

  const BAD_WORDS: seq<string> :=
    ["documento", "assinatura", "recebedor", "correios", "remetente", "cep",
     "quadra", "bloco", "logradouro", "cnpj", "cpf"]

  /** How many lines after a marker line are examined (`range(i+1, min(i+6, n))`). */
  const WINDOW: nat := 5

  const MAX_NAME_LENGTH: nat := 64

  predicate MentionsRecipient(ln: string) {
    Contains(Lower(ln), MARKER)
  }

  /** `sum(ch.isdigit() for ch in s)`. */
  function DigitCount(s: string): (n: nat)
    ensures n == |Filter(s, IsDigit)|
  {
    if s == [] then 0 else (if IsDigit(s[0]) then 1 else 0) + DigitCount(s[1..])
  }

  /** Digits are counted part by part. */
  lemma DigitCountAppend(a: string, b: string)
    ensures DigitCount(a + b) == DigitCount(a) + DigitCount(b)
  {
    FilterAppend(a, b, IsDigit);
  }

  /** `any(w in s.lower() for w in bad_words)`. */
  predicate HasBadWord(s: string) {
    exists k :: 0 <= k < |BAD_WORDS| && Contains(Lower(s), BAD_WORDS[k])
  }

  /** The bad-word test ignores case. */
  lemma HasBadWordIgnoresCase(s: string)
    ensures HasBadWord(Lower(s)) <==> HasBadWord(s)
  {
    LowerIdempotent(s);
  }

  /** A bad word anywhere in a part of the line rejects the whole line. */
  lemma HasBadWordExtend(a: string, b: string)
    ensures HasBadWord(a) || HasBadWord(b) ==> HasBadWord(a + b)
  {
    LowerAppend(a, b);
    if HasBadWord(a) {
      var k :| 0 <= k < |BAD_WORDS| && Contains(Lower(a), BAD_WORDS[k]);
      ContainsExtend(Lower(a), Lower(b), BAD_WORDS[k]);
    } else if HasBadWord(b) {
      var k :| 0 <= k < |BAD_WORDS| && Contains(Lower(b), BAD_WORDS[k]);
      ContainsExtend(Lower(a), Lower(b), BAD_WORDS[k]);
    }
  }

  /** At least two words and at most 64 characters (app.py:54, 57, 160). */
  predicate LooksLikeName(c: string) {
    WordCount(c) >= 2 && |c| <= MAX_NAME_LENGTH
  }

  /** A candidate after a marker line survives both `continue`s and the final test (app.py:49-55). */
  predicate WindowOk(c: string) {
    DigitCount(c) <= 2 && !HasBadWord(c) && LooksLikeName(c)
  }

  /** The test of the fallback scan (app.py:57) and of the inline scan (app.py:160). */
  predicate FallbackOk(c: string) {
    LooksLikeName(c) && DigitCount(c) <= 1
  }

  /** Line `j` is examined in the window opened by the marker line `k`. */
  predicate InWindow(lines: seq<string>, k: int, j: int) {
    0 <= k < j < |lines| && j <= k + WINDOW && MentionsRecipient(lines[k])
  }

  /** Where a window pick came from: the marker line and the picked line. */
  datatype Pick = Pick(anchor: nat, line: nat)

  function WindowEnd(lines: seq<string>, i: nat): (hi: nat)
    ensures hi <= |lines| && (i < |lines| ==> i + 1 <= hi)
    ensures hi <= i + WINDOW + 1 && (hi < i + WINDOW + 1 ==> hi == |lines|)
  {
    if i + WINDOW + 1 <= |lines| then i + WINDOW + 1 else |lines|
  }

  /** The inner loop of app.py:47-55: the first acceptable line in `[j, hi)`. */
  function FirstInWindow(lines: seq<string>, j: nat, hi: nat): (r: Option<nat>)
    requires hi <= |lines|
    ensures r.Some? ==> j <= r.value < hi && WindowOk(lines[r.value])
    ensures r.Some? ==> forall m :: j <= m < r.value ==> !WindowOk(lines[m])
    ensures r.None? ==> forall m :: j <= m < hi ==> !WindowOk(lines[m])
    decreases hi - j
  {
    if j >= hi then None
    else if WindowOk(lines[j]) then Some(j)
    else FirstInWindow(lines, j + 1, hi)
  }

  /** The outer loop of app.py:45-55 from line `i` on. */
  function WindowScan(lines: seq<string>, i: nat): (r: Option<Pick>)
    ensures r.Some? ==> i <= r.value.anchor && InWindow(lines, r.value.anchor, r.value.line)
    ensures r.Some? ==> WindowOk(lines[r.value.line])
    decreases |lines| - i
  {
    if i >= |lines| then None
    else if MentionsRecipient(lines[i]) && FirstInWindow(lines, i + 1, WindowEnd(lines, i)).Some? then
      Some(Pick(i, FirstInWindow(lines, i + 1, WindowEnd(lines, i)).value))
    else WindowScan(lines, i + 1)
  }

  /** The fallback loop of app.py:56-58 from line `i` on. */
  function FallbackScan(lines: seq<string>, i: nat): (r: Option<nat>)
    ensures r.Some? ==> i <= r.value < |lines| && FallbackOk(lines[r.value])
    ensures r.Some? ==> forall m :: i <= m < r.value ==> !FallbackOk(lines[m])
    ensures r.None? ==> forall m :: i <= m < |lines| ==> !FallbackOk(lines[m])
    decreases |lines| - i
  {
    if i >= |lines| then None
    else if FallbackOk(lines[i]) then Some(i)
    else FallbackScan(lines, i + 1)
  }

  /** What `guess_recipient_from_pdf_bytes` returns for the given lines. */
  function GuessFromLines(lines: seq<string>): (r: string)
    ensures r == DEFAULT_NAME || r in lines
  {
    match WindowScan(lines, 0)
    case Some(p) => lines[p.line]
    case None =>
      match FallbackScan(lines, 0)
      case Some(j) => lines[j]
      case None => DEFAULT_NAME
  }

  /** A marker line followed by an acceptable line: that line is the window pick. */
  lemma MarkerThenName(m: string, n: string)
    requires MentionsRecipient(m) && WindowOk(n)
    ensures GuessFromLines([m, n]) == n
  {
    var lines := [m, n];
    assert WindowEnd(lines, 0) == 2;
    assert FirstInWindow(lines, 1, 2) == Some(1);
    assert WindowScan(lines, 0) == Some(Pick(0, 1));
  }

  /** A line whose first eight characters lower-case to "destinat" is a marker line. */
  lemma MentionsByPrefix(ln: string)
    requires |ln| >= |MARKER| && forall i :: 0 <= i < |MARKER| ==> ToLower(ln[i]) == MARKER[i]
    ensures MentionsRecipient(ln)
  {
    var low := Lower(ln);
    assert low[..|MARKER|] == MARKER;
    assert MARKER <= low;
  }

  /** Every bad word holds one of these letters. */
  predicate IsBadLetter(c: char) {
    c == 'd' || c == 's' || c == 'e' || c == 'c' || c == 'q' || c == 'b' || c == 'l'
  }

  /** None of the bad words fits in a line without any of the letters d, s, e, c, q, b and l. */
  lemma NoBadWordByLetters(w: string)
    requires forall i :: 0 <= i < |w| ==> !IsBadLetter(ToLower(w[i]))
    ensures !HasBadWord(w)
  {
    LettersAbsent(w);
    NoBadWordIn(Lower(w));
  }

  lemma NoBadWordIn(low: string)
    requires forall x :: IsBadLetter(x) ==> x !in low
    ensures forall k :: 0 <= k < |BAD_WORDS| ==> !Contains(low, BAD_WORDS[k])
  {
    BadWordLetters();
    forall k | 0 <= k < |BAD_WORDS| ensures !Contains(low, BAD_WORDS[k]) {
      var x := BadLetterOf(k);
      ContainsNeedsChar(low, BAD_WORDS[k], x);
    }
  }

  /** A letter of the bad word `k` from the list d, s, e, c, q, b, l. */
  function BadLetterOf(k: nat): (x: char)
    requires k < |BAD_WORDS|
    ensures IsBadLetter(x) && x in BAD_WORDS[k]
  {
    BadWordLetters();
    if k == 0 then 'd' else if k == 1 then 's' else if k == 2 || k == 4 then 'e'
    else if k == 6 then 'q' else if k == 7 then 'b' else if k == 8 then 'l' else 'c'
  }

  lemma LettersAbsent(w: string)
    requires forall i :: 0 <= i < |w| ==> !IsBadLetter(ToLower(w[i]))
    ensures forall x :: IsBadLetter(x) ==> x !in Lower(w)
  {
    var low := Lower(w);
    forall x | IsBadLetter(x) ensures x !in low {
      assert forall i :: 0 <= i < |low| ==> low[i] != x;
    }
  }

  lemma BadWordLetters()
    ensures |BAD_WORDS| == 11
    ensures 'd' in BAD_WORDS[0] && 's' in BAD_WORDS[1] && 'e' in BAD_WORDS[2] && 'c' in BAD_WORDS[3]
    ensures 'e' in BAD_WORDS[4] && 'c' in BAD_WORDS[5] && 'q' in BAD_WORDS[6] && 'b' in BAD_WORDS[7]
    ensures 'l' in BAD_WORDS[8] && 'c' in BAD_WORDS[9] && 'c' in BAD_WORDS[10]
  {
    assert BAD_WORDS[0][0] == 'd' && BAD_WORDS[1][1] == 's' && BAD_WORDS[2][1] == 'e';
    assert BAD_WORDS[3][0] == 'c' && BAD_WORDS[4][1] == 'e' && BAD_WORDS[5][0] == 'c';
    assert BAD_WORDS[6][0] == 'q' && BAD_WORDS[7][0] == 'b' && BAD_WORDS[8][0] == 'l';
    assert BAD_WORDS[9][0] == 'c' && BAD_WORDS[10][0] == 'c';
  }

  /** Two words without digits or bad-word letters, at most 64 characters: the window test passes. */
  lemma TwoWordsPass(u: string, c: char, v: string)
    requires |u| > 0 && forall i :: 0 <= i < |u| ==> !IsSpace(u[i])
    requires |v| > 0 && forall i :: 0 <= i < |v| ==> !IsSpace(v[i])
    requires IsSpace(c) && |u| + 1 + |v| <= MAX_NAME_LENGTH
    requires forall i :: 0 <= i < |u + [c] + v| ==> !IsDigit((u + [c] + v)[i]) && !IsBadLetter(ToLower((u + [c] + v)[i]))
    ensures WindowOk(u + [c] + v)
  {
    WordCountSplit(u, c, v);
    WordCountOneWord(u);
    WordCountOneWord(v);
    FilterNone(u + [c] + v, IsDigit);
    NoBadWordByLetters(u + [c] + v);
  }

  /** The lines "DESTINATARIO" and "Ana Maria": the name is picked. */
  lemma MarkerThenNameExample()
    ensures GuessFromLines(["DESTINATARIO", "Ana Maria"]) == "Ana Maria"
  {
    ExampleMarker();
    ExampleName();
    MarkerThenName("DESTINATARIO", "Ana Maria");
  }

  lemma ExampleMarker()
    ensures MentionsRecipient("DESTINATARIO")
  {
    MentionsByPrefix("DESTINATARIO");
  }

  lemma ExampleName()
    ensures WindowOk("Ana Maria")
  {
    assert "Ana" + [' '] + "Maria" == "Ana Maria";
    TwoWordsPass("Ana", ' ', "Maria");
  }

  /**
    `guess_recipient_from_pdf_bytes`, given the text extracted from the
    crop's first page, or `None` when reading the PDF or extracting its
    text failed.
   */
  method GuessRecipient(extracted: Option<string>) returns (name: string)
    ensures extracted.None? ==> name == DEFAULT_NAME
    ensures extracted.Some? ==> name == GuessFromLines(Lines(extracted.value))
  {
    if extracted.None? {
      return DEFAULT_NAME;
    }
    var lines := Lines(extracted.value);
    if |lines| == 0 {
      return DEFAULT_NAME;
    }
    for i := 0 to |lines|
      invariant WindowScan(lines, 0) == WindowScan(lines, i)
    {
      if MentionsRecipient(lines[i]) {
        var hi := WindowEnd(lines, i);
        for j := i + 1 to hi
          invariant FirstInWindow(lines, i + 1, hi) == FirstInWindow(lines, j, hi)
        {
          var cand := lines[j];
          if DigitCount(cand) > 2 {
            continue;
          }
          if HasBadWord(cand) {
            continue;
          }
          if WordCount(cand) >= 2 && |cand| <= MAX_NAME_LENGTH {
            assert WindowOk(lines[j]);
            assert FirstInWindow(lines, j, hi) == Some(j);
            assert WindowScan(lines, i) == Some(Pick(i, j));
            return cand;
          }
        }
      }
    }
    assert WindowScan(lines, 0).None?;
    for k := 0 to |lines|
      invariant FallbackScan(lines, 0) == FallbackScan(lines, k)
    {
      var cand := lines[k];
      if WordCount(cand) >= 2 && DigitCount(cand) <= 1 && |cand| <= MAX_NAME_LENGTH {
        assert FallbackOk(lines[k]);
        assert FallbackScan(lines, k) == Some(k);
        return cand;
      }
    }
    assert FallbackScan(lines, 0).None?;
    return DEFAULT_NAME;
  }

  /**
    The window scan finds the first acceptable line of the first window
    that has one: nothing acceptable lies in an earlier window, or earlier in
    the same window; and when it finds nothing, no window holds an
    acceptable line.
   */
  lemma {:induction false} WindowScanFirst(lines: seq<string>, i: nat)
    ensures WindowScan(lines, i).None? ==>
      forall k, j :: i <= k && InWindow(lines, k, j) ==> !WindowOk(lines[j])
    ensures WindowScan(lines, i).Some? ==>
      var p := WindowScan(lines, i).value;
      forall k, j :: i <= k && InWindow(lines, k, j) && (k < p.anchor || (k == p.anchor && j < p.line))
        ==> !WindowOk(lines[j])
    decreases |lines| - i
  {
    if i < |lines| {
      WindowScanFirst(lines, i + 1);
      var hi := WindowEnd(lines, i);
      var w := FirstInWindow(lines, i + 1, hi);
      if MentionsRecipient(lines[i]) && w.Some? {
      } else {
        assert forall j :: InWindow(lines, i, j) ==> !WindowOk(lines[j]);
      }
    }
  }

  /**
    What the heuristic returns: a line picked from a window is acceptable
    there (at most two digits, no bad word, at least two words, at most 64
    characters); a fallback line has at most one digit; and the default
    name comes back exactly when no window holds an acceptable line and no
    line passes the fallback test.
   */
  lemma GuessFromLinesResult(lines: seq<string>)
    ensures WindowScan(lines, 0).Some? ==>
      GuessFromLines(lines) in lines && WindowOk(GuessFromLines(lines))
    ensures WindowScan(lines, 0).None? && GuessFromLines(lines) != DEFAULT_NAME ==>
      GuessFromLines(lines) in lines && FallbackOk(GuessFromLines(lines))
    ensures GuessFromLines(lines) == DEFAULT_NAME <==>
      WindowScan(lines, 0).None? && forall l :: l in lines ==> !FallbackOk(l)
  {
    DefaultIsOneWord();
    if WindowScan(lines, 0).None? && FallbackScan(lines, 0).None? {
      forall l | l in lines ensures !FallbackOk(l) {
        var m :| 0 <= m < |lines| && lines[m] == l;
      }
    }
  }

  lemma DefaultIsOneWord()
    ensures WordCount(DEFAULT_NAME) == 1
  {
    OneWord(DEFAULT_NAME, false);
  }

  /** The inline scan of app.py:157-161 from line `i` on: the line right after a marker line. */
  function InlineScan(lines: seq<string>, i: nat): (r: Option<nat>)
    ensures r.Some? ==> i < r.value < |lines|
    ensures r.Some? ==> MentionsRecipient(lines[r.value - 1]) && FallbackOk(lines[r.value])
    ensures r.Some? ==>
      forall k :: i <= k < r.value - 1 && MentionsRecipient(lines[k]) ==> !FallbackOk(lines[k + 1])
    ensures r.None? ==>
      forall k :: i <= k && k + 1 < |lines| && MentionsRecipient(lines[k]) ==> !FallbackOk(lines[k + 1])
    decreases |lines| - i
  {
    if i >= |lines| then None
    else if MentionsRecipient(lines[i]) && i + 1 < |lines| && FallbackOk(lines[i + 1]) then Some(i + 1)
    else InlineScan(lines, i + 1)
  }

  /** The name the inline scan settles on: a line of the text, or the default. */
  function InlineName(lines: seq<string>): (r: string)
    ensures r == DEFAULT_NAME || (r in lines && FallbackOk(r))
  {
    match InlineScan(lines, 0)
    case Some(j) => lines[j]
    case None => DEFAULT_NAME
  }

  /**
    The name the form uses (app.py:155-161), from the crop's extracted text
    (empty when extraction failed, app.py:150-153).
   */
  method InlineRecipient(text: string) returns (name: string)
    ensures name == InlineName(Lines(text))
  {
    var lines := Lines(text);
    name := DEFAULT_NAME;
    for i := 0 to |lines|
      invariant InlineScan(lines, 0) == InlineScan(lines, i)
    {
      if MentionsRecipient(lines[i]) && i + 1 < |lines| {
        var candidate := lines[i + 1];
        if WordCount(candidate) >= 2 && DigitCount(candidate) <= 1 && |candidate| <= MAX_NAME_LENGTH {
          assert FallbackOk(lines[i + 1]);
          assert InlineScan(lines, i) == Some(i + 1);
          name := candidate;
          break;
        }
      }
    }
  }

  /**
    The form's name is the default or the line right after a marker line
    with at least two words, at most one digit and at most 64 characters.
   */
  lemma InlineNameResult(lines: seq<string>)
    ensures InlineName(lines) == DEFAULT_NAME <==>
      forall k :: 0 <= k && k + 1 < |lines| && MentionsRecipient(lines[k]) ==> !FallbackOk(lines[k + 1])
    ensures InlineName(lines) != DEFAULT_NAME ==>
      exists k :: 0 <= k && k + 1 < |lines| && MentionsRecipient(lines[k]) && lines[k + 1] == InlineName(lines)
        && FallbackOk(InlineName(lines))
  {
    DefaultIsOneWord();
  }

  /**
    The two variants agree on when a name is found: if the inline scan picks
    a line without a bad word, the full heuristic finds a name in a window
    too, and never falls back.
   */
  lemma InlinePickOpensWindow(lines: seq<string>)
    requires InlineScan(lines, 0).Some? && !HasBadWord(lines[InlineScan(lines, 0).value])
    ensures WindowScan(lines, 0).Some?
  {
    var j := InlineScan(lines, 0).value;
    assert InWindow(lines, j - 1, j) && WindowOk(lines[j]);
    WindowScanFirst(lines, 0);
  }
}
