/**
  `slugify` (app.py:29-32): the recipient's name as a file-name fragment.
  Accents are stripped by Unicode normalisation in the source; the model
  starts after that step and keeps its ASCII-ignore encoding.
 */
module Slug {
  import opened Strings

  /** The slug used when nothing is left of the input. */
  const FALLBACK: string := "destinatario"

  predicate IsDash(c: char) { c == '-' }

  predicate IsSlugChar(c: char) { IsLowerLetter(c) || IsDigit(c) || c == '-' }

  /**
    The shape of every slug: not empty, only `[a-z0-9-]`, no dash at either
    end and no two dashes in a row.
   */
  predicate IsSlug(t: string) {
    && t != []
    && t[0] != '-' && t[|t| - 1] != '-'
    && (forall i :: 0 <= i < |t| ==> IsSlugChar(t[i]))
    && NoDoubleDash(t)
  }

  predicate NoDoubleDash(s: string) {
    forall i :: 0 <= i < |s| - 1 ==> !(s[i] == '-' && s[i + 1] == '-')
  }

  predicate AlnumOrDash(s: string) {
    forall i :: 0 <= i < |s| ==> IsAlnum(s[i]) || s[i] == '-'
  }

  /**
    `.encode("ascii", "ignore").decode("ascii")`: non-ASCII characters are
    dropped, an all-ASCII text is kept as it is, and so are the letters and
    digits.
   */
  function AsciiOnly(s: string): (r: string)
    ensures forall i :: 0 <= i < |r| ==> IsAscii(r[i])
    ensures (forall i :: 0 <= i < |s| ==> IsAscii(s[i])) ==> r == s
    ensures Filter(r, IsAlnum) == Filter(s, IsAlnum)
  {
    FilterNested(s, IsAscii, IsAlnum);
    if forall i :: 0 <= i < |s| ==> IsAscii(s[i]) then
      FilterAll(s, IsAscii);
      Filter(s, IsAscii)
    else
      Filter(s, IsAscii)
  }

  /**
    `re.sub(r"[^A-Za-z0-9]+", "-", text).strip("-")`: only letters, digits
    and single dashes, no dash at either end, and the letters and digits of
    `text` in order.
   */
  function Dashed(text: string): (d: string)
    ensures AlnumOrDash(d) && NoDoubleDash(d)
    ensures d != [] ==> d[0] != '-' && d[|d| - 1] != '-'
    ensures Filter(d, IsAlnum) == Filter(text, IsAlnum)
  {
    var a := AsciiOnly(text);
    var r := ReplaceRuns(a, IsNotAlnum, '-');
    RunsShape(a);
    StripShape(r);
    ReplaceRunsKeeps(a, IsNotAlnum, '-', IsAlnum);
    StripKeeps(r, IsDash, IsAlnum);
    Strip(r, IsDash)
  }

  /**
    `slugify`: every result has the slug shape; its letters and digits are
    those of the text, lower-cased and in order, or the text has none and
    the result is the fallback, which is then the whole result.
   */
  function Slugify(text: string): (r: string)
    ensures IsSlug(r)
    ensures Filter(text, IsAlnum) == [] ==> r == FALLBACK
    ensures Filter(r, IsAlnum)
         == if Filter(text, IsAlnum) == [] then FALLBACK else Lower(Filter(text, IsAlnum))
  {
    var st := Dashed(text);
    var t := Lower(st);
    LowerFilter(st);
    if t == [] then
      FallbackIsSlug();
      FallbackAllAlnum();
      FALLBACK
    else
      LoweredShape(st);
      assert IsAlnum(st[0]);
      StartsWithAlnum(st);
      t
  }

  lemma FallbackIsSlug()
    ensures IsSlug(FALLBACK)
  {
  }

  lemma StripShape(d: string)
    requires AlnumOrDash(d) && NoDoubleDash(d)
    ensures var st := Strip(d, IsDash);
      AlnumOrDash(st) && NoDoubleDash(st) && (st != [] ==> st[0] != '-' && st[|st| - 1] != '-')
  {
    var st := Strip(d, IsDash);
    var k := LeadCount(d, IsDash);
    SliceShape(d, k, k + |st|);
  }

  lemma RunsShape(a: string)
    ensures var d := ReplaceRuns(a, IsNotAlnum, '-'); AlnumOrDash(d) && NoDoubleDash(d)
  {
    var d := ReplaceRuns(a, IsNotAlnum, '-');
    assert forall i :: 0 <= i < |d| ==> d[i] == '-' || !IsNotAlnum(d[i]);
  }

  lemma SliceShape(d: string, lo: nat, hi: nat)
    requires lo <= hi <= |d|
    requires AlnumOrDash(d) && NoDoubleDash(d)
    ensures AlnumOrDash(d[lo..hi]) && NoDoubleDash(d[lo..hi])
  {
    var st := d[lo..hi];
    assert forall i :: 0 <= i < |st| ==> st[i] == d[lo + i];
  }

  lemma LoweredShape(st: string)
    requires st != [] && st[0] != '-' && st[|st| - 1] != '-'
    requires AlnumOrDash(st) && NoDoubleDash(st)
    ensures IsSlug(Lower(st))
  {
    var t := Lower(st);
    forall i | 0 <= i < |t| ensures IsSlugChar(t[i]) && (t[i] == '-' <==> st[i] == '-') {
    }
  }

  lemma FallbackAllAlnum()
    ensures Filter(FALLBACK, IsAlnum) == FALLBACK
  {
    FilterAll(FALLBACK, IsAlnum);
  }

  /** A slug is its own slug. */
  lemma SlugifyFixesSlugs(t: string)
    requires IsSlug(t)
    ensures Slugify(t) == t
  {
    SlugIsAscii(t);
    SlugHasNoRuns(t);
    SlugIsStripped(t);
    SlugIsLower(t);
    assert Dashed(t) == t;
  }

  lemma SlugIsAscii(t: string)
    requires IsSlug(t)
    ensures AsciiOnly(t) == t
  {
    assert forall i :: 0 <= i < |t| ==> IsAscii(t[i]) by {
      forall i | 0 <= i < |t| ensures IsAscii(t[i]) { assert IsSlugChar(t[i]); }
    }
  }

  lemma SlugHasNoRuns(t: string)
    requires IsSlug(t)
    ensures ReplaceRuns(t, IsNotAlnum, '-') == t
  {
    assert forall i :: 0 <= i < |t| && IsNotAlnum(t[i]) ==> t[i] == '-' by {
      forall i | 0 <= i < |t| && IsNotAlnum(t[i]) ensures t[i] == '-' {
        assert IsSlugChar(t[i]);
      }
    }
    ReplaceRunsFixed(t, IsNotAlnum, '-');
  }

  lemma SlugIsStripped(t: string)
    requires IsSlug(t)
    ensures Strip(t, IsDash) == t
  {
    LeadCountUnique(t, IsDash, 0);
    TrailCountUnique(t, IsDash, 0);
  }

  lemma SlugIsLower(t: string)
    requires IsSlug(t)
    ensures Lower(t) == t
  {
    forall i | 0 <= i < |t| ensures Lower(t)[i] == t[i] {
      assert IsSlugChar(t[i]);
    }
  }

  /** `slugify` is idempotent. */
  lemma SlugifyIdempotent(text: string)
    ensures Slugify(Slugify(text)) == Slugify(text)
  {
    SlugifyFixesSlugs(Slugify(text));
  }

  /**
    A run of ASCII characters other than `[A-Za-z0-9]` between two words
    becomes a single dash: slugifying `u + sep + v` joins the slugs of `u`
    and `v` with one `-`.
   */
  lemma SlugifyJoin(u: string, sep: string, v: string)
    requires u != [] && IsAlnum(u[|u| - 1]) && v != [] && IsAlnum(v[0])
    requires sep != [] && forall i :: 0 <= i < |sep| ==> IsAscii(sep[i]) && IsNotAlnum(sep[i])
    ensures Slugify(u + sep + v) == Slugify(u) + "-" + Slugify(v)
  {
    DashedJoin(u, sep, v);
    EndsWithAlnum(u);
    StartsWithAlnum(v);
    SlugifyOfDashed(u);
    SlugifyOfDashed(v);
    SlugifyOfDashed(u + sep + v);
    LowerJoin(Dashed(u), Dashed(v));
  }

  /** A word of letters and digits only is slugified by lower-casing it. */
  lemma WordSlug(w: string)
    requires w != [] && forall i :: 0 <= i < |w| ==> IsAlnum(w[i])
    ensures Slugify(w) == Lower(w)
  {
    WordDashed(w);
    assert Lower(Dashed(w)) != [];
  }

  lemma WordDashed(w: string)
    requires forall i :: 0 <= i < |w| ==> IsAlnum(w[i])
    ensures Dashed(w) == w
  {
    WordIsAscii(w);
    WordHasNoRuns(w);
    WordIsStripped(w);
  }

  lemma WordIsAscii(w: string)
    requires forall i :: 0 <= i < |w| ==> IsAlnum(w[i])
    ensures AsciiOnly(w) == w
  {
    assert forall i :: 0 <= i < |w| ==> IsAscii(w[i]);
  }

  lemma WordHasNoRuns(w: string)
    requires forall i :: 0 <= i < |w| ==> IsAlnum(w[i])
    ensures ReplaceRuns(w, IsNotAlnum, '-') == w
  {
    ReplaceRunsFixed(w, IsNotAlnum, '-');
  }

  lemma WordIsStripped(w: string)
    requires forall i :: 0 <= i < |w| ==> IsAlnum(w[i])
    ensures Strip(w, IsDash) == w
  {
    LeadCountUnique(w, IsDash, 0);
    TrailCountUnique(w, IsDash, 0);
  }

  /** Two words of letters and digits with a separator run: lower-cased, joined by one dash. */
  lemma TwoWordSlug(u: string, sep: string, v: string)
    requires u != [] && forall i :: 0 <= i < |u| ==> IsAlnum(u[i])
    requires v != [] && forall i :: 0 <= i < |v| ==> IsAlnum(v[i])
    requires sep != [] && forall i :: 0 <= i < |sep| ==> IsAscii(sep[i]) && IsNotAlnum(sep[i])
    ensures Slugify(u + sep + v) == Lower(u) + "-" + Lower(v)
  {
    SlugifyJoin(u, sep, v);
    WordSlug(u);
    WordSlug(v);
  }

  /** The recipient "Ana Maria" gives the slug "ana-maria". */
  lemma TwoWordExample()
    ensures Slugify("Ana Maria") == "ana-maria"
  {
    assert "Ana" + " " + "Maria" == "Ana Maria";
    AnaMariaParts();
    AnaMariaLower();
  }

  lemma AnaMariaParts()
    ensures Slugify("Ana" + " " + "Maria") == Lower("Ana") + "-" + Lower("Maria")
  {
    assert forall i :: 0 <= i < |"Ana"| ==> IsAlnum("Ana"[i]);
    assert forall i :: 0 <= i < |"Maria"| ==> IsAlnum("Maria"[i]);
    TwoWordSlug("Ana", " ", "Maria");
  }

  lemma AnaMariaLower()
    ensures Lower("Ana") + "-" + Lower("Maria") == "ana-maria"
  {
  }

  /**
    Separators around a name are dropped: with only characters other than
    `[A-Za-z0-9]` (ASCII or not) before and after a text that starts and
    ends with a letter or digit, the slug is that text's own.
   */
  lemma SlugifyTrimsEdges(a: string, core: string, b: string)
    requires forall i :: 0 <= i < |a| ==> IsNotAlnum(a[i])
    requires forall i :: 0 <= i < |b| ==> IsNotAlnum(b[i])
    requires |core| > 0 && IsAlnum(core[0]) && IsAlnum(core[|core| - 1])
    ensures Slugify(a + core + b) == Slugify(core)
  {
    DashedTrimsEdges(a, core, b);
  }

  lemma DashedTrimsEdges(a: string, core: string, b: string)
    requires forall i :: 0 <= i < |a| ==> IsNotAlnum(a[i])
    requires forall i :: 0 <= i < |b| ==> IsNotAlnum(b[i])
    requires |core| > 0 && IsAlnum(core[0]) && IsAlnum(core[|core| - 1])
    ensures Dashed(a + core + b) == Dashed(core)
  {
    var ra, rc, rb := RunsOf(AsciiOnly(a)), RunsOf(AsciiOnly(core)), RunsOf(AsciiOnly(b));
    RunsTrimsEdges(a, core, b);
    DashedIs(a + core + b);
    DashedIs(core);
    DashEdges(ra, rc, rb);
    NoDashEdges(rc);
  }

  lemma DashedIs(text: string)
    ensures Dashed(text) == Strip(RunsOf(AsciiOnly(text)), IsDash)
  {
  }

  /** Stripping dashes leaves a text without dashes at its ends as it is. */
  lemma NoDashEdges(x: string)
    requires |x| > 0 && !IsDash(x[0]) && !IsDash(x[|x| - 1])
    ensures Strip(x, IsDash) == x
  {
    DashEdges([], x, []);
    assert [] + x + [] == x;
  }

  /** The dash replacement, as `Dashed` applies it after the ASCII filter. */
  function RunsOf(e: string): string {
    ReplaceRuns(e, IsNotAlnum, '-')
  }

  /** Before the dashes are stripped, the separators at both edges are dashes only. */
  lemma RunsTrimsEdges(a: string, core: string, b: string)
    requires forall i :: 0 <= i < |a| ==> IsNotAlnum(a[i])
    requires forall i :: 0 <= i < |b| ==> IsNotAlnum(b[i])
    requires |core| > 0 && IsAlnum(core[0]) && IsAlnum(core[|core| - 1])
    ensures RunsOf(AsciiOnly(a + core + b))
         == RunsOf(AsciiOnly(a)) + RunsOf(AsciiOnly(core)) + RunsOf(AsciiOnly(b))
    ensures var ra := RunsOf(AsciiOnly(a)); forall i :: 0 <= i < |ra| ==> IsDash(ra[i])
    ensures var rb := RunsOf(AsciiOnly(b)); forall i :: 0 <= i < |rb| ==> IsDash(rb[i])
    ensures var rc := RunsOf(AsciiOnly(core)); |rc| > 0 && !IsDash(rc[0]) && !IsDash(rc[|rc| - 1])
  {
    var ea, c, eb := AsciiOnly(a), AsciiOnly(core), AsciiOnly(b);
    AsciiAround(a, core, b);
    NoAlnumKept(a);
    NoAlnumKept(b);
    AsciiEnds(core);
    RunsAround(ea, c, eb);
    RunsOfSeparators(ea);
    RunsOfSeparators(eb);
    var rc := RunsOf(c);
    assert rc[0] == c[0] && rc[|rc| - 1] == c[|c| - 1];
  }

  lemma AsciiAround(a: string, core: string, b: string)
    ensures AsciiOnly(a + core + b) == AsciiOnly(a) + AsciiOnly(core) + AsciiOnly(b)
  {
    FilterAppend(a + core, b, IsAscii);
    FilterAppend(a, core, IsAscii);
  }

  /** The ASCII filter of a separator run is still a separator run. */
  lemma NoAlnumKept(a: string)
    requires forall i :: 0 <= i < |a| ==> IsNotAlnum(a[i])
    ensures var ea := AsciiOnly(a); forall i :: 0 <= i < |ea| ==> IsNotAlnum(ea[i])
  {
    FilterNone(a, IsAlnum);
    FilterEmptyNone(AsciiOnly(a), IsAlnum);
  }

  /** The ASCII filter keeps the alphanumeric first and last characters. */
  lemma AsciiEnds(core: string)
    requires |core| > 0 && IsAlnum(core[0]) && IsAlnum(core[|core| - 1])
    ensures var c := AsciiOnly(core); |c| > 0 && IsAlnum(c[0]) && IsAlnum(c[|c| - 1])
  {
    var init := core[..|core| - 1];
    assert init + [core[|core| - 1]] == core;
    FilterAppend(init, [core[|core| - 1]], IsAscii);
    assert Filter([core[|core| - 1]], IsAscii) == [core[|core| - 1]];
  }

  /** Run replacement around a text with alphanumeric ends works part by part. */
  lemma RunsAround(ea: string, c: string, eb: string)
    requires |c| > 0 && IsAlnum(c[0]) && IsAlnum(c[|c| - 1])
    ensures ReplaceRuns(ea + c + eb, IsNotAlnum, '-')
         == ReplaceRuns(ea, IsNotAlnum, '-') + ReplaceRuns(c, IsNotAlnum, '-') + ReplaceRuns(eb, IsNotAlnum, '-')
  {
    assert (c + eb)[0] == c[0];
    ReplaceRunsAppend(c, eb, IsNotAlnum, '-');
    ReplaceRunsAppend(ea, c + eb, IsNotAlnum, '-');
    Assoc(ea, c, eb);
    Assoc(ReplaceRuns(ea, IsNotAlnum, '-'), ReplaceRuns(c, IsNotAlnum, '-'), ReplaceRuns(eb, IsNotAlnum, '-'));
  }

  /** A separator run becomes nothing when empty and one dash otherwise. */
  lemma RunsOfSeparators(e: string)
    requires forall i :: 0 <= i < |e| ==> IsNotAlnum(e[i])
    ensures var r := ReplaceRuns(e, IsNotAlnum, '-'); forall i :: 0 <= i < |r| ==> IsDash(r[i])
  {
    if |e| > 0 {
      ReplaceRunsOfRun(e, IsNotAlnum, '-');
    }
  }

  /** Stripping dashes from a text with other characters at both ends removes exactly the dashes around it. */
  lemma DashEdges(d1: string, x: string, d2: string)
    requires forall i :: 0 <= i < |d1| ==> IsDash(d1[i])
    requires forall i :: 0 <= i < |d2| ==> IsDash(d2[i])
    requires |x| > 0 && !IsDash(x[0]) && !IsDash(x[|x| - 1])
    ensures Strip(d1 + x + d2, IsDash) == x
  {
    DashEdgeCounts(d1, x, d2);
    StripCut(d1, x, d2, IsDash, |d1|, |d2|);
    assert d1[|d1|..] == [] && d2[..|d2| - |d2|] == [];
  }

  lemma DashEdgeCounts(d1: string, x: string, d2: string)
    requires forall i :: 0 <= i < |d1| ==> IsDash(d1[i])
    requires forall i :: 0 <= i < |d2| ==> IsDash(d2[i])
    requires |x| > 0 && !IsDash(x[0]) && !IsDash(x[|x| - 1])
    ensures LeadCount(d1 + x + d2, IsDash) == |d1|
    ensures TrailCount((d1 + x + d2)[|d1|..], IsDash) == |d2|
  {
    var w := d1 + x + d2;
    assert forall i :: 0 <= i < |d1| ==> w[i] == d1[i];
    assert w[|d1|] == x[0];
    LeadCountUnique(w, IsDash, |d1|);
    var t := w[|d1|..];
    assert t == x + d2;
    assert forall i :: |t| - |d2| <= i < |t| ==> t[i] == d2[i - |x|];
    assert t[|t| - 1 - |d2|] == x[|x| - 1];
    TrailCountUnique(t, IsDash, |d2|);
  }

  /** A bullet and a space before the name do not reach the slug. */
  lemma BulletExample()
    ensures Slugify("\U{2022} Ana Maria") == "ana-maria"
  {
    var a, core := "\U{2022} ", "Ana Maria";
    assert a + core + [] == "\U{2022} Ana Maria";
    SlugifyTrimsEdges(a, core, []);
    TwoWordExample();
  }

  lemma SlugifyOfDashed(text: string)
    requires Filter(text, IsAlnum) != []
    ensures Dashed(text) != [] && Slugify(text) == Lower(Dashed(text))
  {
  }

  lemma LowerJoin(a: string, b: string)
    ensures Lower(a + "-" + b) == Lower(a) + "-" + Lower(b)
  {
    LowerAppend(a + "-", b);
    LowerAppend(a, "-");
  }

  lemma EndsWithAlnum(u: string)
    requires u != [] && IsAlnum(u[|u| - 1])
    ensures Filter(u, IsAlnum) != []
  {
    var init := u[..|u| - 1];
    assert init + [u[|u| - 1]] == u;
    FilterAppend(init, [u[|u| - 1]], IsAlnum);
  }

  lemma StartsWithAlnum(v: string)
    requires v != [] && IsAlnum(v[0])
    ensures Filter(v, IsAlnum) != []
  {
  }

  lemma DashedJoin(u: string, sep: string, v: string)
    requires u != [] && IsAlnum(u[|u| - 1]) && v != [] && IsAlnum(v[0])
    requires sep != [] && forall i :: 0 <= i < |sep| ==> IsAscii(sep[i]) && IsNotAlnum(sep[i])
    ensures Dashed(u + sep + v) == Dashed(u) + "-" + Dashed(v)
  {
    var au, av := AsciiOnly(u), AsciiOnly(v);
    AsciiJoin(u, sep, v);
    var x := ReplaceRuns(au, IsNotAlnum, '-');
    var y := ReplaceRuns(av, IsNotAlnum, '-');
    ReplaceRunsJoin(au, sep, av, IsNotAlnum, '-');
    assert x != [] && x[|x| - 1] == au[|au| - 1];
    assert y != [] && y[0] == av[0];
    StripAround(x, "-", y, IsDash);
    assert Dashed(u + sep + v) == Strip(x + "-" + y, IsDash);
    assert Dashed(u) == Strip(x, IsDash) && Dashed(v) == Strip(y, IsDash);
  }

  /** The ASCII filter keeps the separator and the alphanumeric ends of both words. */
  lemma AsciiJoin(u: string, sep: string, v: string)
    requires u != [] && IsAlnum(u[|u| - 1]) && v != [] && IsAlnum(v[0])
    requires forall i :: 0 <= i < |sep| ==> IsAscii(sep[i])
    ensures AsciiOnly(u + sep + v) == AsciiOnly(u) + sep + AsciiOnly(v)
    ensures var au := AsciiOnly(u); au != [] && IsAlnum(au[|au| - 1])
    ensures var av := AsciiOnly(v); av != [] && IsAlnum(av[0])
  {
    FilterAppend(u + sep, v, IsAscii);
    FilterAppend(u, sep, IsAscii);
    FilterAll(sep, IsAscii);
    var init := u[..|u| - 1];
    assert init + [u[|u| - 1]] == u;
    FilterAppend(init, [u[|u| - 1]], IsAscii);
    assert Filter([u[|u| - 1]], IsAscii) == [u[|u| - 1]];
  }

  lemma {:induction false} FilterNested(s: string, outer: char -> bool, keep: char -> bool)
    requires forall x :: keep(x) ==> outer(x)
    ensures Filter(Filter(s, outer), keep) == Filter(s, keep)
  {
    if s != [] {
      FilterNested(s[1..], outer, keep);
      if outer(s[0]) {
        assert Filter(s, outer) == [s[0]] + Filter(s[1..], outer);
        assert ([s[0]] + Filter(s[1..], outer))[1..] == Filter(s[1..], outer);
      }
    }
  }

  lemma {:induction false} LowerFilter(s: string)
    ensures Filter(Lower(s), IsAlnum) == Lower(Filter(s, IsAlnum))
  {
    if s != [] {
      LowerFilter(s[1..]);
      assert Lower(s)[1..] == Lower(s[1..]);
      if IsAlnum(s[0]) {
        assert Filter(s, IsAlnum) == [s[0]] + Filter(s[1..], IsAlnum);
        assert ([s[0]] + Filter(s[1..], IsAlnum))[1..] == Filter(s[1..], IsAlnum);
      }
    }
  }
}
