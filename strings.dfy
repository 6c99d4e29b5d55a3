/**
  The Python string operations the label names rely on, stated once over
  `seq<char>`: `str.strip(chars)`, `re.sub(<class>+, <char>, s)`, the `in`
  substring test, filtering, and ASCII character classes with `str.lower`.
 */
module Strings {

  predicate IsUpper(c: char) { 'A' <= c <= 'Z' }
  predicate IsLowerLetter(c: char) { 'a' <= c <= 'z' }
  predicate IsDigit(c: char) { '0' <= c <= '9' }
  /** The regular-expression class `[A-Za-z0-9]`. */
  predicate IsAlnum(c: char) { IsUpper(c) || IsLowerLetter(c) || IsDigit(c) }
  predicate IsNotAlnum(c: char) { !IsAlnum(c) }
  predicate IsAscii(c: char) { c < 128 as char }

  /** `str.lower` on one character; only `A`-`Z` change. */
  function ToLower(c: char): (l: char)
    ensures IsUpper(c) ==> IsLowerLetter(l) && l as int == c as int + 32
    ensures !IsUpper(c) ==> l == c
  {
    if IsUpper(c) then (c as int + 32) as char else c
  }

  function Lower(s: string): (r: string)
    ensures |r| == |s| && forall i :: 0 <= i < |s| ==> r[i] == ToLower(s[i])
  {
    if s == [] then [] else [ToLower(s[0])] + Lower(s[1..])
  }

  /** Lower-casing twice is lower-casing once. */
  lemma LowerIdempotent(s: string)
    ensures Lower(Lower(s)) == Lower(s)
  {
    assert forall i :: 0 <= i < |s| ==> ToLower(Lower(s)[i]) == Lower(s)[i];
  }

  /** Lower-casing distributes over concatenation. */
  lemma LowerAppend(a: string, b: string)
    ensures Lower(a + b) == Lower(a) + Lower(b)
  {
    var l, r := Lower(a + b), Lower(a) + Lower(b);
    forall i | 0 <= i < |a + b| ensures l[i] == r[i] {
      if i < |a| {
        assert (a + b)[i] == a[i];
      } else {
        assert (a + b)[i] == b[i - |a|];
      }
    }
  }

  /** The characters of `s` that satisfy `keep`, in order. */
  function Filter(s: string, keep: char -> bool): (r: string)
    ensures |r| <= |s|
    ensures forall i :: 0 <= i < |r| ==> keep(r[i])
  {
    if s == [] then []
    else if keep(s[0]) then [s[0]] + Filter(s[1..], keep)
    else Filter(s[1..], keep)
  }

  /** Python's `needle in hay` on strings. */
  predicate Contains(hay: string, needle: string)
    decreases |hay|
  {
    needle <= hay || (hay != [] && Contains(hay[1..], needle))
  }

  /** `needle` occurs in `hay` starting at index `i`. */
  predicate OccursAt(hay: string, needle: string, i: nat) {
    i + |needle| <= |hay| && hay[i..i + |needle|] == needle
  }

  /** `needle in hay` holds exactly when `needle` occurs somewhere in `hay`. */
  lemma {:induction false} ContainsIff(hay: string, needle: string)
    ensures Contains(hay, needle) <==> exists i: nat :: OccursAt(hay, needle, i)
    decreases |hay|
  {
    assert needle <= hay <==> OccursAt(hay, needle, 0);
    if hay == [] {
      assert forall i: nat :: OccursAt(hay, needle, i) ==> i == 0;
    } else {
      ContainsIff(hay[1..], needle);
      forall i: nat
        ensures OccursAt(hay[1..], needle, i) <==> OccursAt(hay, needle, i + 1)
      {
        if i + 1 + |needle| <= |hay| {
          assert hay[1..][i..i + |needle|] == hay[i + 1..i + 1 + |needle|];
        }
      }
      if i: nat :| OccursAt(hay, needle, i) {
        if i > 0 {
          assert OccursAt(hay[1..], needle, i - 1);
        }
      }
    }
  }

  /** A needle with a character that the haystack lacks does not occur in it. */
  lemma {:induction false} ContainsNeedsChar(hay: string, needle: string, x: char)
    requires x in needle && x !in hay
    ensures !Contains(hay, needle)
    decreases |hay|
  {
    if hay != [] {
      assert x !in hay[1..];
      ContainsNeedsChar(hay[1..], needle, x);
    }
  }

  /** The number of leading characters of `s` that satisfy `p`. */
  function LeadCount(s: string, p: char -> bool): (k: nat)
    ensures k <= |s|
    ensures forall i :: 0 <= i < k ==> p(s[i])
    ensures k < |s| ==> !p(s[k])
    decreases |s|
  {
    if s != [] && p(s[0]) then 1 + LeadCount(s[1..], p) else 0
  }

  /** The number of trailing characters of `s` that satisfy `p`. */
  function TrailCount(s: string, p: char -> bool): (k: nat)
    ensures k <= |s|
    ensures forall i :: |s| - k <= i < |s| ==> p(s[i])
    ensures k < |s| ==> !p(s[|s| - 1 - k])
    decreases |s|
  {
    if s != [] && p(s[|s| - 1]) then 1 + TrailCount(s[..|s| - 1], p) else 0
  }

  /** A string found in `a` or in `b` is found in `a + b`. */
  lemma ContainsExtend(a: string, b: string, needle: string)
    ensures Contains(a, needle) || Contains(b, needle) ==> Contains(a + b, needle)
  {
    ContainsIff(a, needle);
    ContainsIff(b, needle);
    ContainsIff(a + b, needle);
    if Contains(a, needle) {
      var i: nat :| OccursAt(a, needle, i);
      assert (a + b)[i..i + |needle|] == a[i..i + |needle|];
      assert OccursAt(a + b, needle, i);
    } else if Contains(b, needle) {
      var i: nat :| OccursAt(b, needle, i);
      assert (a + b)[|a| + i..|a| + i + |needle|] == b[i..i + |needle|];
      assert OccursAt(a + b, needle, |a| + i);
    }
  }

  /** The leading run is the only count with the properties `LeadCount` promises. */
  lemma LeadCountUnique(s: string, p: char -> bool, k: nat)
    requires k <= |s| && forall i :: 0 <= i < k ==> p(s[i])
    requires k < |s| ==> !p(s[k])
    ensures LeadCount(s, p) == k
  {
  }

  lemma TrailCountUnique(s: string, p: char -> bool, k: nat)
    requires k <= |s| && forall i :: |s| - k <= i < |s| ==> p(s[i])
    requires k < |s| ==> !p(s[|s| - 1 - k])
    ensures TrailCount(s, p) == k
  {
  }

  /** `s.lstrip(...)`: `s` without its leading run of characters satisfying `p`. */
  function TrimLeft(s: string, p: char -> bool): (r: string)
    ensures |r| <= |s| && forall i :: 0 <= i < |r| ==> r[i] == s[|s| - |r| + i]
    ensures forall i :: 0 <= i < |s| - |r| ==> p(s[i])
    ensures r == [] || !p(r[0])
  {
    s[LeadCount(s, p)..]
  }

  /** `s.rstrip(...)`: `s` without its trailing run of characters satisfying `p`. */
  function TrimRight(s: string, p: char -> bool): (r: string)
    ensures |r| <= |s| && forall i :: 0 <= i < |r| ==> r[i] == s[i]
    ensures forall i :: |r| <= i < |s| ==> p(s[i])
    ensures r == [] || !p(r[|r| - 1])
  {
    s[..|s| - TrailCount(s, p)]
  }

  /**
    `s.strip(...)`: the contiguous part of `s` between its leading and its
    trailing run of characters satisfying `p`.
   */
  function Strip(s: string, p: char -> bool): (r: string)
    ensures r == [] || (!p(r[0]) && !p(r[|r| - 1]))
    ensures LeadCount(s, p) + |r| + TrailCount(s[LeadCount(s, p)..], p) == |s|
    ensures r == s[LeadCount(s, p)..LeadCount(s, p) + |r|]
    ensures forall i :: LeadCount(s, p) + |r| <= i < |s| ==> p(s[i])
    ensures r == [] <==> LeadCount(s, p) == |s|
  {
    var k := LeadCount(s, p);
    var n := |s| - k - TrailCount(s[k..], p);
    MiddleSlice(s, p, k, n);
    StripEnds(s, p, k, n);
    SliceEnds(s, k, n);
    s[k..k + n]
  }

  lemma SliceEnds(s: string, k: nat, n: nat)
    requires k + n <= |s|
    ensures |s[k..k + n]| == n
    ensures n > 0 ==> s[k..k + n][0] == s[k] && s[k..k + n][n - 1] == s[k + n - 1]
  {
  }

  /** The kept middle starts and ends with a character outside the class. */
  lemma StripEnds(s: string, p: char -> bool, k: nat, n: nat)
    requires k == LeadCount(s, p) && n == |s| - k - TrailCount(s[k..], p)
    ensures n > 0 ==> !p(s[k]) && !p(s[k + n - 1])
  {
    if n > 0 {
      SuffixIndex(s, k, n - 1);
    }
  }

  lemma SuffixIndex(s: string, k: nat, j: nat)
    requires k + j < |s|
    ensures s[k..][j] == s[k + j]
  {
  }

  /** Stripping leaves nothing exactly when every character is in the class. */
  lemma StripEmptyIff(s: string, p: char -> bool)
    ensures Strip(s, p) == [] <==> forall i :: 0 <= i < |s| ==> p(s[i])
  {
    if forall i :: 0 <= i < |s| ==> p(s[i]) {
      LeadCountUnique(s, p, |s|);
    }
  }

  /** `Strip` keeps the `n` characters after the leading run of `k`. */
  lemma StripIs(s: string, p: char -> bool, k: nat, n: nat)
    requires k == LeadCount(s, p) && n == |s| - k - TrailCount(s[k..], p)
    ensures Strip(s, p) == s[k..k + n]
  {
  }

  /** `strip` is `lstrip` followed by `rstrip`. */
  lemma StripIsTrims(s: string, p: char -> bool)
    ensures Strip(s, p) == TrimRight(TrimLeft(s, p), p)
  {
    var k := LeadCount(s, p);
    var n := |s| - k - TrailCount(s[k..], p);
    TrimBoth(s, p, k, n);
    SliceOfSlice(s, k, n);
    StripIs(s, p, k, n);
  }

  lemma TrimBoth(s: string, p: char -> bool, k: nat, n: nat)
    requires k == LeadCount(s, p) && n == |s[k..]| - TrailCount(s[k..], p)
    ensures TrimRight(TrimLeft(s, p), p) == s[k..][..n]
  {
  }

  lemma MiddleSlice(s: string, p: char -> bool, k: nat, n: nat)
    requires k == LeadCount(s, p) && n == |s| - k - TrailCount(s[k..], p)
    ensures k + n <= |s|
    ensures forall i :: k + n <= i < |s| ==> p(s[i])
    ensures n == 0 <==> k == |s|
  {
    var l := s[k..];
    assert TrailCount(l, p) <= |l|;
    MiddleSliceTail(s, p, k, n);
    if k < |s| {
      assert l[0] == s[k];
    }
  }

  lemma SliceOfSlice(s: string, k: nat, n: nat)
    requires k + n <= |s|
    ensures s[k..][..n] == s[k..k + n]
  {
  }

  lemma MiddleSliceTail(s: string, p: char -> bool, k: nat, n: nat)
    requires k <= |s| && n == |s| - k - TrailCount(s[k..], p)
    ensures forall i :: k + n <= i < |s| ==> p(s[i])
  {
    var l := s[k..];
    var t := TrailCount(l, p);
    forall i | k + n <= i < |s| ensures p(s[i]) {
      assert |l| - t <= i - k < |l|;
      assert l[i - k] == s[i];
    }
  }

  /** When the last character is kept, stripping only drops the leading run. */
  lemma StripOpenRight(x: string, p: char -> bool)
    requires |x| > 0 && !p(x[|x| - 1])
    ensures Strip(x, p) == x[LeadCount(x, p)..]
  {
    NoTrailAfterLead(x, p);
    StripToEnd(x, p);
  }

  lemma StripToEnd(x: string, p: char -> bool)
    requires TrailCount(x[LeadCount(x, p)..], p) == 0
    ensures Strip(x, p) == x[LeadCount(x, p)..]
  {
    var k, r := LeadCount(x, p), Strip(x, p);
    SliceToEnd(x, k, |r|);
    assert r == x[k..k + |r|] == x[k..];
  }

  /** When the last character is kept, the part after the leading run has no trailing run. */
  lemma NoTrailAfterLead(x: string, p: char -> bool)
    requires |x| > 0 && !p(x[|x| - 1])
    ensures LeadCount(x, p) < |x| && TrailCount(x[LeadCount(x, p)..], p) == 0
  {
    var k := LeadCount(x, p);
    assert k < |x|;
    LastOfSuffix(x, k);
    TrailCountUnique(x[k..], p, 0);
  }

  lemma LastOfSuffix(x: string, k: nat)
    requires k < |x|
    ensures |x[k..]| > 0 && x[k..][|x[k..]| - 1] == x[|x| - 1]
  {
  }

  /** When the first character is kept, stripping only drops the trailing run. */
  lemma StripOpenLeft(y: string, p: char -> bool)
    requires |y| > 0 && !p(y[0])
    ensures Strip(y, p) == y[..|y| - TrailCount(y, p)]
  {
    LeadCountUnique(y, p, 0);
    StripFromStart(y, p);
  }

  lemma StripFromStart(y: string, p: char -> bool)
    requires LeadCount(y, p) == 0
    ensures Strip(y, p) == y[..|y| - TrailCount(y, p)]
  {
    var n, r := |y| - TrailCount(y, p), Strip(y, p);
    SliceFromStart(y, n);
    assert |r| == n;
    assert r == y[0..0 + n] == y[..n];
  }

  /** After the leading run, `s` is the stripped string followed by the trailing run. */
  lemma StripThenTail(s: string, p: char -> bool)
    ensures var k, r := LeadCount(s, p), Strip(s, p);
      k + |r| <= |s| && s[k..] == r + s[k + |r|..]
  {
    SliceThenTail(s, LeadCount(s, p), Strip(s, p));
  }

  lemma SliceThenTail(s: string, k: nat, r: string)
    requires k + |r| <= |s| && r == s[k..k + |r|]
    ensures s[k..] == r + s[k + |r|..]
  {
  }

  lemma SliceToEnd(s: string, k: nat, n: nat)
    requires k + n == |s|
    ensures s[k..k + n] == s[k..]
  {
  }

  lemma SliceFromStart(s: string, n: nat)
    requires n <= |s|
    ensures s[0..] == s && s[0..0 + n] == s[..n]
  {
  }

  /**
    Stripping `x + m + y`, where `x` ends and `y` starts with a kept
    character, strips `x` at its front and `y` at its back and leaves `m`
    alone.
   */
  lemma StripAround(x: string, m: string, y: string, p: char -> bool)
    requires |x| > 0 && !p(x[|x| - 1]) && |y| > 0 && !p(y[0])
    ensures Strip(x + m + y, p) == Strip(x, p) + m + Strip(y, p)
  {
    StripAroundSlice(x, m, y, p);
    StripOpenRight(x, p);
    StripOpenLeft(y, p);
  }

  lemma StripAroundSlice(x: string, m: string, y: string, p: char -> bool)
    requires |x| > 0 && !p(x[|x| - 1]) && |y| > 0 && !p(y[0])
    ensures Strip(x + m + y, p) == x[LeadCount(x, p)..] + m + y[..|y| - TrailCount(y, p)]
  {
    StripAroundCounts(x, m, y, p);
    StripCut(x, m, y, p, LeadCount(x, p), TrailCount(y, p));
  }

  /** Stripping `x + m + y` when its runs are known to lie inside `x` and `y`. */
  lemma StripCut(x: string, m: string, y: string, p: char -> bool, k: nat, t: nat)
    requires k <= |x| && t <= |y|
    requires LeadCount(x + m + y, p) == k && TrailCount((x + m + y)[k..], p) == t
    ensures Strip(x + m + y, p) == x[k..] + m + y[..|y| - t]
  {
    var w := x + m + y;
    var n := |w| - k - t;
    StripIs(w, p, k, n);
    SliceAround(x, m, y, k, t);
    assert Strip(w, p) == w[k..k + n] == x[k..] + m + y[..|y| - t];
  }

  /** The runs stripped from `x + m + y` are the leading run of `x` and the trailing run of `y`. */
  lemma StripAroundCounts(x: string, m: string, y: string, p: char -> bool)
    requires |x| > 0 && !p(x[|x| - 1]) && |y| > 0 && !p(y[0])
    ensures var w, k := x + m + y, LeadCount(x, p);
      LeadCount(w, p) == k && TrailCount(w[k..], p) == TrailCount(y, p)
  {
    var k := LeadCount(x, p);
    SliceAfterPrefix(x, m, y, k);
    LeadCountPrefix(x, m + y, p);
    TrailCountSuffix(x[k..] + m, y, p);
  }

  lemma SliceAfterPrefix(x: string, m: string, y: string, k: nat)
    requires k <= |x|
    ensures x + m + y == x + (m + y) && (x + m + y)[k..] == (x[k..] + m) + y
  {
  }

  /** Cutting `k` characters off the front of `x + m + y` and `t` off its back. */
  lemma SliceAround(x: string, m: string, y: string, k: nat, t: nat)
    requires k <= |x| && t <= |y|
    ensures var w := x + m + y; w[k..][..|w| - k - t] == x[k..] + m + y[..|y| - t]
    ensures var w := x + m + y; w[k..k + (|w| - k - t)] == x[k..] + m + y[..|y| - t]
  {
  }

  /** A prefix that ends with a kept character fixes the leading run. */
  lemma LeadCountPrefix(x: string, z: string, p: char -> bool)
    requires |x| > 0 && !p(x[|x| - 1])
    ensures LeadCount(x + z, p) == LeadCount(x, p)
  {
    var k := LeadCount(x, p);
    var w := x + z;
    assert k < |x|;
    forall i | 0 <= i < k ensures p(w[i]) {
      assert w[i] == x[i];
    }
    assert w[k] == x[k];
    LeadCountUnique(w, p, k);
  }

  /** A suffix that starts with a kept character fixes the trailing run. */
  lemma TrailCountSuffix(z: string, y: string, p: char -> bool)
    requires |y| > 0 && !p(y[0])
    ensures TrailCount(z + y, p) == TrailCount(y, p)
  {
    var t := TrailCount(y, p);
    var w := z + y;
    assert t < |y|;
    forall i | |w| - t <= i < |w| ensures p(w[i]) {
      assert w[i] == y[i - |z|];
    }
    assert w[|w| - 1 - t] == y[|y| - 1 - t];
    TrailCountUnique(w, p, t);
  }

  /** Stripping characters that `keep` rejects does not change what `keep` selects. */
  lemma StripKeeps(s: string, p: char -> bool, keep: char -> bool)
    requires forall x :: keep(x) ==> !p(x)
    ensures Filter(Strip(s, p), keep) == Filter(s, keep)
  {
    var k := LeadCount(s, p);
    var l := s[k..];
    FilterDropsPrefix(s, k, keep);
    var n := |l| - TrailCount(l, p);
    FilterDropsSuffix(l, n, keep);
    assert Strip(s, p) == l[..n];
  }

  /**
    `re.sub(<class>+, c, s)` where `p` is the class: every maximal run of
    characters satisfying `p` becomes the single character `c`; the other
    characters are kept in place.
   */
  function ReplaceRuns(s: string, p: char -> bool, c: char): (r: string)
    requires p(c)
    ensures r == [] <==> s == []
    ensures r != [] ==> (if p(s[0]) then r[0] == c else r[0] == s[0])
    ensures r != [] ==> (if p(s[|s| - 1]) then r[|r| - 1] == c else r[|r| - 1] == s[|s| - 1])
    ensures forall i :: 0 <= i < |r| ==> r[i] == c || !p(r[i])
    ensures forall i :: 0 <= i < |r| - 1 ==> !(p(r[i]) && p(r[i + 1]))
    decreases |s|
  {
    if s == [] then []
    else if p(s[0]) then
      var rest := TrimLeft(s, p);
      assert |rest| < |s| && (rest != [] ==> rest[|rest| - 1] == s[|s| - 1]);
      [c] + ReplaceRuns(rest, p, c)
    else
      [s[0]] + ReplaceRuns(s[1..], p, c)
  }

  /** Replacing runs keeps every character outside the class, in order. */
  lemma {:induction false} ReplaceRunsKeeps(s: string, p: char -> bool, c: char, keep: char -> bool)
    requires p(c)
    requires forall x :: keep(x) == !p(x)
    ensures Filter(ReplaceRuns(s, p, c), keep) == Filter(s, keep)
    decreases |s|
  {
    if s == [] {
    } else if p(s[0]) {
      var k := LeadCount(s, p);
      var rest := s[k..];
      assert TrimLeft(s, p) == rest;
      ReplaceRunsKeeps(rest, p, c, keep);
      FilterCons(c, ReplaceRuns(rest, p, c), keep);
      assert forall i :: 0 <= i < k ==> !keep(s[i]);
      FilterDropsPrefix(s, k, keep);
    } else {
      ReplaceRunsKeeps(s[1..], p, c, keep);
      FilterCons(s[0], ReplaceRuns(s[1..], p, c), keep);
    }
  }

  lemma FilterCons(x: char, rest: string, keep: char -> bool)
    ensures Filter([x] + rest, keep) == if keep(x) then [x] + Filter(rest, keep) else Filter(rest, keep)
  {
    assert ([x] + rest)[1..] == rest;
  }

  /** A string whose class runs are already single `c`s is left as it is. */
  lemma {:induction false} ReplaceRunsFixed(s: string, p: char -> bool, c: char)
    requires p(c)
    requires forall i :: 0 <= i < |s| && p(s[i]) ==> s[i] == c
    requires forall i :: 0 <= i < |s| - 1 ==> !(p(s[i]) && p(s[i + 1]))
    ensures ReplaceRuns(s, p, c) == s
    decreases |s|
  {
    if s == [] {
    } else if p(s[0]) {
      assert TrimLeft(s, p) == s[1..] by {
        if |s| > 1 { assert !p(s[1]); }
        assert LeadCount(s, p) == 1;
      }
      ReplaceRunsFixed(s[1..], p, c);
    } else {
      ReplaceRunsFixed(s[1..], p, c);
    }
  }

  /**
    Replacing runs works piece by piece when the cut is not inside a run:
    the left piece ends, or the right piece starts, outside the class.
   */
  lemma {:induction false} ReplaceRunsAppend(a: string, b: string, p: char -> bool, c: char)
    requires p(c)
    requires a == [] || b == [] || !p(a[|a| - 1]) || !p(b[0])
    ensures ReplaceRuns(a + b, p, c) == ReplaceRuns(a, p, c) + ReplaceRuns(b, p, c)
    decreases |a|
  {
    if a == [] {
      assert a + b == b;
    } else if b == [] {
      assert a + b == a;
    } else if p(a[0]) {
      var t := TrimLeft(a, p);
      TrimLeftAppend(a, b, p);
      assert t != [] ==> t[|t| - 1] == a[|a| - 1];
      ReplaceRunsAppend(t, b, p, c);
      HeadOfAppend(a, b);
      ReplaceRunsRun(a + b, p, c);
      ReplaceRunsRun(a, p, c);
      Assoc([c], ReplaceRuns(t, p, c), ReplaceRuns(b, p, c));
    } else {
      HeadOfAppend(a, b);
      ReplaceRunsAppend(a[1..], b, p, c);
      ReplaceRunsKept(a + b, p, c);
      ReplaceRunsKept(a, p, c);
      Assoc([a[0]], ReplaceRuns(a[1..], p, c), ReplaceRuns(b, p, c));
    }
  }

  /** A leading run becomes one replacement character. */
  lemma ReplaceRunsRun(s: string, p: char -> bool, c: char)
    requires p(c) && s != [] && p(s[0])
    ensures ReplaceRuns(s, p, c) == [c] + ReplaceRuns(TrimLeft(s, p), p, c)
  {
  }

  /** A leading character outside the class is kept. */
  lemma ReplaceRunsKept(s: string, p: char -> bool, c: char)
    requires p(c) && s != [] && !p(s[0])
    ensures ReplaceRuns(s, p, c) == [s[0]] + ReplaceRuns(s[1..], p, c)
  {
  }

  lemma HeadOfAppend(a: string, b: string)
    requires a != []
    ensures (a + b)[0] == a[0] && (a + b)[1..] == a[1..] + b
  {
  }

  lemma Assoc(x: string, y: string, z: string)
    ensures x + (y + z) == (x + y) + z
  {
  }

  lemma TrimLeftAppend(a: string, b: string, p: char -> bool)
    requires a != [] && b != [] && (!p(a[|a| - 1]) || !p(b[0]))
    ensures TrimLeft(a + b, p) == TrimLeft(a, p) + b
  {
    var k := LeadCount(a, p);
    LeadCountUnique(a + b, p, k);
    assert (a + b)[k..] == a[k..] + b;
  }

  /** A whole run of class characters becomes the single replacement character. */
  lemma ReplaceRunsOfRun(r: string, p: char -> bool, c: char)
    requires p(c)
    requires r != [] && forall i :: 0 <= i < |r| ==> p(r[i])
    ensures ReplaceRuns(r, p, c) == [c]
  {
    assert LeadCount(r, p) == |r|;
    assert TrimLeft(r, p) == [];
  }

  /** A run of class characters between two other characters becomes one `c`. */
  lemma ReplaceRunsJoin(a: string, w: string, b: string, p: char -> bool, c: char)
    requires p(c)
    requires |a| > 0 && !p(a[|a| - 1]) && |b| > 0 && !p(b[0])
    requires |w| > 0 && forall i :: 0 <= i < |w| ==> p(w[i])
    ensures ReplaceRuns(a + w + b, p, c) == ReplaceRuns(a, p, c) + [c] + ReplaceRuns(b, p, c)
  {
    ReplaceRunsAppend(w, b, p, c);
    ReplaceRunsOfRun(w, p, c);
    ReplaceRunsAppend(a, w + b, p, c);
    Assoc(a, w, b);
    Assoc(ReplaceRuns(a, p, c), [c], ReplaceRuns(b, p, c));
  }

  lemma {:induction false} FilterDropsPrefix(s: string, k: nat, keep: char -> bool)
    requires k <= |s|
    requires forall i :: 0 <= i < k ==> !keep(s[i])
    ensures Filter(s, keep) == Filter(s[k..], keep)
  {
    if k > 0 {
      assert !keep(s[0]);
      FilterDropsPrefix(s[1..], k - 1, keep);
      assert s[1..][k - 1..] == s[k..];
    }
  }

  lemma {:induction false} FilterAppend(a: string, b: string, keep: char -> bool)
    ensures Filter(a + b, keep) == Filter(a, keep) + Filter(b, keep)
  {
    if a == [] {
      assert a + b == b;
    } else {
      assert (a + b)[1..] == a[1..] + b;
      FilterAppend(a[1..], b, keep);
    }
  }

  lemma {:induction false} FilterAll(s: string, keep: char -> bool)
    requires forall i :: 0 <= i < |s| ==> keep(s[i])
    ensures Filter(s, keep) == s
  {
    if s != [] {
      FilterAll(s[1..], keep);
    }
  }

  lemma {:induction false} FilterNone(s: string, keep: char -> bool)
    requires forall i :: 0 <= i < |s| ==> !keep(s[i])
    ensures Filter(s, keep) == []
  {
    if s != [] {
      FilterNone(s[1..], keep);
    }
  }

  /** A filter that keeps nothing saw no character it would keep. */
  lemma {:induction false} FilterEmptyNone(s: string, keep: char -> bool)
    requires Filter(s, keep) == []
    ensures forall i :: 0 <= i < |s| ==> !keep(s[i])
  {
    if s != [] {
      FilterEmptyNone(s[1..], keep);
      forall i | 1 <= i < |s| ensures !keep(s[i]) {
        assert s[1..][i - 1] == s[i];
      }
    }
  }

  /** Dropping a suffix of rejected characters does not change the filter. */
  lemma FilterDropsSuffix(s: string, k: nat, keep: char -> bool)
    requires k <= |s|
    requires forall i :: k <= i < |s| ==> !keep(s[i])
    ensures Filter(s[..k], keep) == Filter(s, keep)
  {
    assert s == s[..k] + s[k..];
    FilterAppend(s[..k], s[k..], keep);
    FilterNone(s[k..], keep);
  }
}
