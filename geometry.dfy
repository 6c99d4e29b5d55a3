/**
  The crop/fit geometry of `build_crop_and_fit` (app.py:67-107): the user's
  rectangle, given in millimetres from the page's top-left corner and widened
  by four margins, becomes a rectangle in PDF points with a bottom-left
  origin, clamped to the page; the fit page scales it uniformly onto the
  target canvas.
 */
module Geometry {
  import opened Units

  /** A PDF rectangle `[llx lly urx ury]`, as PyPDF2's RectangleObject. */
  datatype Rect = Rect(llx: real, lly: real, urx: real, ury: real) {
    /** `RectangleObject.width`: right minus left, negative if inverted. */
    function Width(): real { urx - llx }
    function Height(): real { ury - lly }
    /** The rectangle lies on the page `[0, pw] x [0, ph]`. */
    predicate Within(pw: real, ph: real) {
      0.0 <= llx && 0.0 <= lly && urx <= pw && ury <= ph
    }
    predicate Contains(p: Point) {
      llx <= p.x <= urx && lly <= p.y <= ury
    }
  }

  datatype Point = Point(x: real, y: real)

  /**
    The parameters of `build_crop_and_fit` (app.py:61-64): the base
    rectangle (left and top edges measured from the page's left and top, in
    mm), the four margins and the target page size in mm.
   */
  datatype Params = Params(
    xLeftMm: real, yTopMm: real, widthMm: real, heightMm: real,
    extraTopMm: real, extraRightMm: real, extraLeftMm: real, extraBottomMm: real,
    targetWidthMm: real, targetHeightMm: real)

  function Max(a: real, b: real): real { if a >= b then a else b }
  function Min(a: real, b: real): real { if a <= b then a else b }

  /**
    `y0_base_mm` (app.py:74): the bottom edge of the base rectangle measured
    from the page bottom. Bottom gap, rectangle height and top offset add up
    to the page height.
   */
  function BaseBottomMm(pageHeightMm: real, yTopMm: real, heightMm: real): (y: real)
    ensures y + heightMm + yTopMm == pageHeightMm
  {
    pageHeightMm - (yTopMm + heightMm)
  }

  /**
    The widened rectangle in points before clamping (app.py:71-80). The body
    follows the source through millimetres; the contract says where each
    edge ends up: the left edge moves left by the left margin, the bottom
    edge down by the bottom margin, the right edge right by the right margin
    and the top edge (the requested top, measured down from the page top)
    up by the top margin.
   */
  function Unclamped(ph: real, p: Params): (r: Rect)
    ensures r.llx == MmToPt(p.xLeftMm) - MmToPt(p.extraLeftMm)
    ensures r.lly == ph - MmToPt(p.yTopMm + p.heightMm) - MmToPt(p.extraBottomMm)
    ensures r.urx == MmToPt(p.xLeftMm + p.widthMm) + MmToPt(p.extraRightMm)
    ensures r.ury == ph - MmToPt(p.yTopMm) + MmToPt(p.extraTopMm)
    ensures r.Width() == MmToPt(p.widthMm + p.extraLeftMm + p.extraRightMm)
    ensures r.Height() == MmToPt(p.heightMm + p.extraTopMm + p.extraBottomMm)
  {
    var pageHeightMm := PtToMm(ph);
    var x0Mm := p.xLeftMm - p.extraLeftMm;
    var y0Mm := BaseBottomMm(pageHeightMm, p.yTopMm, p.heightMm) - p.extraBottomMm;
    var wMm := p.widthMm + p.extraLeftMm + p.extraRightMm;
    var hMm := p.heightMm + p.extraTopMm + p.extraBottomMm;
    Rect(MmToPt(x0Mm), MmToPt(y0Mm), MmToPt(x0Mm + wMm), MmToPt(y0Mm + hMm))
  }

  /**
    Clamping to the page (app.py:81-82): the lower-left corner is raised to
    at least 0, the upper-right corner lowered to at most the page size. An
    edge either stays or moves onto the page edge it crossed.
   */
  function Clamp(r: Rect, pw: real, ph: real): (c: Rect)
    ensures 0.0 <= c.llx && 0.0 <= c.lly && c.urx <= pw && c.ury <= ph
    ensures c.llx >= r.llx && c.lly >= r.lly && c.urx <= r.urx && c.ury <= r.ury
    ensures (c.llx == r.llx || c.llx == 0.0) && (c.lly == r.lly || c.lly == 0.0)
    ensures (c.urx == r.urx || c.urx == pw) && (c.ury == r.ury || c.ury == ph)
  {
    Rect(Max(0.0, r.llx), Max(0.0, r.lly), Min(pw, r.urx), Min(ph, r.ury))
  }

  /** A rectangle already on the page is left as it is by clamping. */
  lemma ClampWithin(r: Rect, pw: real, ph: real)
    requires r.Within(pw, ph)
    ensures Clamp(r, pw, ph) == r
  {
  }

  /**
    Clamping does not keep the rectangle ordered by itself: the clamped left
    edge is at most the clamped right edge exactly when the unclamped span
    was ordered and overlaps `[0, pw]`.
   */
  lemma ClampOrderedIff(r: Rect, pw: real, ph: real)
    ensures var c := Clamp(r, pw, ph);
      c.llx <= c.urx <==> (r.llx <= r.urx && r.llx <= pw && 0.0 <= r.urx && 0.0 <= pw)
    ensures var c := Clamp(r, pw, ph);
      c.lly <= c.ury <==> (r.lly <= r.ury && r.lly <= ph && 0.0 <= r.ury && 0.0 <= ph)
  {
  }

  /** The crop rectangle in points (app.py:70-82). */
  function ResolveRect(pw: real, ph: real, p: Params): (r: Rect)
    ensures r == Clamp(Unclamped(ph, p), pw, ph)
    ensures r.Within(pw, ph)
    ensures r == Unclamped(ph, p) <==> Unclamped(ph, p).Within(pw, ph)
  {
    Clamp(Unclamped(ph, p), pw, ph)
  }

  /**
    One axis of the fit (app.py:93): the factor that maps the crop span onto
    the target span, or 1.0 when the span is zero.
   */
  function AxisScale(target: real, span: real): (f: real)
    ensures span != 0.0 ==> f * span == target
    ensures span == 0.0 ==> f == 1.0
  {
    if span != 0.0 then target / span else 1.0
  }

  /**
    The uniform fit scale `s = min(sx, sy)` (app.py:93-94): the largest
    factor that is no larger than either axis factor.
   */
  function FitScale(wOut: real, hOut: real, crop: Rect): (s: real)
    ensures s <= AxisScale(wOut, crop.Width()) && s <= AxisScale(hOut, crop.Height())
    ensures s == AxisScale(wOut, crop.Width()) || s == AxisScale(hOut, crop.Height())
  {
    Min(AxisScale(wOut, crop.Width()), AxisScale(hOut, crop.Height()))
  }

  /**
    For a crop of positive size, the scaled crop fits the target canvas on
    both axes and fills it on at least one (letterbox fit, not stretch).
   */
  lemma FitScaleFits(wOut: real, hOut: real, crop: Rect)
    requires crop.Width() > 0.0 && crop.Height() > 0.0
    ensures var s := FitScale(wOut, hOut, crop);
      s * crop.Width() <= wOut && s * crop.Height() <= hOut
    ensures var s := FitScale(wOut, hOut, crop);
      s * crop.Width() == wOut || s * crop.Height() == hOut
  {
    var s := FitScale(wOut, hOut, crop);
    var sx, sy := AxisScale(wOut, crop.Width()), AxisScale(hOut, crop.Height());
    MulLeft(s, sx, crop.Width());
    MulLeft(s, sy, crop.Height());
  }

  lemma MulLeft(a: real, b: real, c: real)
    requires a <= b && c > 0.0
    ensures a * c <= b * c
  {
  }

  /**
    A PDF transformation matrix `[a b c d e f]` with `b = c = 0`, which is
    all that translations and scalings produce. A point `(x, y)` goes to
    `(a x + e, d y + f)`.
   */
  datatype Affine = Affine(a: real, d: real, e: real, f: real)

  const Identity: Affine := Affine(1.0, 1.0, 0.0, 0.0)

  function Apply(m: Affine, p: Point): Point {
    Point(m.a * p.x + m.e, m.d * p.y + m.f)
  }

  /** PyPDF2's `Transformation.translate`: move after applying `m`. */
  function Translate(m: Affine, tx: real, ty: real): (t: Affine)
    ensures forall p :: Apply(t, p) == Point(Apply(m, p).x + tx, Apply(m, p).y + ty)
  {
    m.(e := m.e + tx, f := m.f + ty)
  }

  /** PyPDF2's `Transformation.scale`: scale about the origin after applying `m`. */
  function Scale(m: Affine, sx: real, sy: real): (t: Affine)
    ensures forall p :: Apply(t, p) == Point(sx * Apply(m, p).x, sy * Apply(m, p).y)
  {
    Affine(m.a * sx, m.d * sy, m.e * sx, m.f * sy)
  }

  /**
    `Transformation().translate(-x0, -y0).scale(s, s)` (app.py:92, 105): the
    crop's lower-left corner goes to the origin, then everything is scaled
    by `s`.
   */
  function FitMap(crop: Rect, s: real): (m: Affine)
    ensures Apply(m, Point(crop.llx, crop.lly)) == Point(0.0, 0.0)
    ensures Apply(m, Point(crop.urx, crop.ury)) == Point(s * crop.Width(), s * crop.Height())
  {
    Scale(Translate(Identity, -crop.llx, -crop.lly), s, s)
  }

  /**
    With the fit scale, every point of a crop of positive size lands on the
    target canvas `[0, wOut] x [0, hOut]`, when the canvas is not negative.
   */
  lemma FitMapInCanvas(crop: Rect, wOut: real, hOut: real, p: Point)
    requires crop.Width() > 0.0 && crop.Height() > 0.0
    requires wOut >= 0.0 && hOut >= 0.0
    requires crop.Contains(p)
    ensures var q := Apply(FitMap(crop, FitScale(wOut, hOut, crop)), p);
      0.0 <= q.x <= wOut && 0.0 <= q.y <= hOut
  {
    var s := FitScale(wOut, hOut, crop);
    FitScaleFits(wOut, hOut, crop);
    FitScaleNonNegative(wOut, hOut, crop);
    ScaledMapWithin(crop, s, wOut, hOut, p);
  }

  lemma ScaledMapWithin(crop: Rect, s: real, wOut: real, hOut: real, p: Point)
    requires s >= 0.0 && s * crop.Width() <= wOut && s * crop.Height() <= hOut
    requires crop.Contains(p)
    ensures var q := Apply(FitMap(crop, s), p);
      0.0 <= q.x <= wOut && 0.0 <= q.y <= hOut
  {
    FitMapApply(crop, s, p);
    ScaledWithin(s, p.x - crop.llx, crop.Width(), wOut);
    ScaledWithin(s, p.y - crop.lly, crop.Height(), hOut);
  }

  /** The fit map moves a point by the crop's lower-left corner, then scales it. */
  lemma FitMapApply(crop: Rect, s: real, p: Point)
    ensures Apply(FitMap(crop, s), p) == Point(s * (p.x - crop.llx), s * (p.y - crop.lly))
  {
    var m := Affine(1.0 * s, 1.0 * s, (0.0 + -crop.llx) * s, (0.0 + -crop.lly) * s);
    assert FitMap(crop, s) == m;
    Distribute(s, p.x, crop.llx);
    Distribute(s, p.y, crop.lly);
  }

  lemma Distribute(s: real, x: real, o: real)
    ensures (1.0 * s) * x + (0.0 + -o) * s == s * (x - o)
  {
  }

  lemma FitScaleNonNegative(wOut: real, hOut: real, crop: Rect)
    requires crop.Width() > 0.0 && crop.Height() > 0.0
    requires wOut >= 0.0 && hOut >= 0.0
    ensures FitScale(wOut, hOut, crop) >= 0.0
  {
    var sx, sy := AxisScale(wOut, crop.Width()), AxisScale(hOut, crop.Height());
    if sx < 0.0 { MulNeg(sx, crop.Width()); }
    if sy < 0.0 { MulNeg(sy, crop.Height()); }
  }

  lemma MulNeg(s: real, w: real)
    requires s < 0.0 && w > 0.0
    ensures s * w < 0.0
  {
  }

  lemma ScaledWithin(s: real, d: real, w: real, out: real)
    requires s >= 0.0 && 0.0 <= d <= w && s * w <= out
    ensures 0.0 <= s * d <= out
  {
  }

  /**
    Everything `build_crop_and_fit` computes before touching the pages
    (app.py:70-94), and what its debug string reports (app.py:113).
   */
  datatype Layout = Layout(pw: real, ph: real, rect: Rect,
                           wOut: real, hOut: real, sx: real, sy: real, scale: real)

  function Resolve(mediabox: Rect, p: Params): (g: Layout)
    ensures g.pw == mediabox.Width() && g.ph == mediabox.Height()
    ensures g.rect == Clamp(Unclamped(g.ph, p), g.pw, g.ph) && g.rect.Within(g.pw, g.ph)
    ensures g.wOut == MmToPt(p.targetWidthMm) && g.hOut == MmToPt(p.targetHeightMm)
    ensures g.sx == AxisScale(g.wOut, g.rect.Width()) && g.sy == AxisScale(g.hOut, g.rect.Height())
    ensures g.scale <= g.sx && g.scale <= g.sy && (g.scale == g.sx || g.scale == g.sy)
    ensures g.rect.Width() > 0.0 && g.rect.Height() > 0.0 ==>
      g.scale * g.rect.Width() <= g.wOut && g.scale * g.rect.Height() <= g.hOut
    ensures g.rect.Width() > 0.0 && g.rect.Height() > 0.0 ==>
      g.scale * g.rect.Width() == g.wOut || g.scale * g.rect.Height() == g.hOut
  {
    var pw, ph := mediabox.Width(), mediabox.Height();
    var rect := ResolveRect(pw, ph, p);
    var wOut, hOut := MmToPt(p.targetWidthMm), MmToPt(p.targetHeightMm);
    var sx, sy := AxisScale(wOut, rect.Width()), AxisScale(hOut, rect.Height());
    var g := Layout(pw, ph, rect, wOut, hOut, sx, sy, FitScale(wOut, hOut, rect));
    if rect.Width() > 0.0 && rect.Height() > 0.0 then
      FitScaleFits(wOut, hOut, rect);
      g
    else
      g
  }

  /** `Resolve` computed step by step, in the order `build_crop_and_fit` does. */
  lemma ResolveSteps(mediabox: Rect, p: Params, rect: Rect, sx: real, sy: real)
    requires rect == ResolveRect(mediabox.Width(), mediabox.Height(), p)
    requires sx == AxisScale(MmToPt(p.targetWidthMm), rect.Width())
    requires sy == AxisScale(MmToPt(p.targetHeightMm), rect.Height())
    ensures Resolve(mediabox, p) == Layout(mediabox.Width(), mediabox.Height(), rect,
      MmToPt(p.targetWidthMm), MmToPt(p.targetHeightMm), sx, sy, Min(sx, sy))
  {
  }

  /** A crop of 200 x 100 pt on a 100 x 100 pt canvas is scaled by 0.5, the smaller axis factor. */
  lemma AspectExample()
    ensures FitScale(100.0, 100.0, Rect(0.0, 0.0, 200.0, 100.0)) == 0.5
  {
  }

  /**
    An A4 page (210 x 297 mm), the rectangle 85 / 34 / 100 / 150 mm with 14 mm
    extra at the top and 18.6 mm on the right, onto 100 x 150 mm: the base
    rectangle's bottom is 113 mm above the page bottom, the widened crop is
    118.6 x 164 mm and lies on the page, and the width is the binding axis.
   */
  lemma A4LabelExample()
    ensures BaseBottomMm(PtToMm(MmToPt(297.0)), 34.0, 150.0) == 113.0
    ensures var g := Resolve(Rect(0.0, 0.0, MmToPt(210.0), MmToPt(297.0)),
                             Params(85.0, 34.0, 100.0, 150.0, 14.0, 18.6, 0.0, 0.0, 100.0, 150.0));
      && g.rect == Rect(MmToPt(85.0), MmToPt(113.0), MmToPt(203.6), MmToPt(277.0))
      && g.rect.Width() == MmToPt(118.6) && g.rect.Height() == MmToPt(164.0)
      && g.scale == 100.0 / 118.6
  {
  }

  /**
    The form's own defaults (app.py:118-131) put the top edge 182.5 mm down
    an A4 page, so the 150 mm base rectangle reaches 35.5 mm below the page
    bottom: the crop is clamped there and is 128.5 mm tall.
   */
  lemma FormDefaultsExample()
    ensures var g := Resolve(Rect(0.0, 0.0, MmToPt(210.0), MmToPt(297.0)),
                             Params(85.0, 182.5, 100.0, 150.0, 14.0, 18.6, 0.0, 0.0, 100.0, 150.0));
      && Unclamped(g.ph, Params(85.0, 182.5, 100.0, 150.0, 14.0, 18.6, 0.0, 0.0, 100.0, 150.0)).lly
         == MmToPt(-35.5)
      && g.rect == Rect(MmToPt(85.0), 0.0, MmToPt(203.6), MmToPt(128.5))
      && g.scale == 100.0 / 118.6
  {
    var p := Params(85.0, 182.5, 100.0, 150.0, 14.0, 18.6, 0.0, 0.0, 100.0, 150.0);
    var pw, ph := MmToPt(210.0), MmToPt(297.0);
    var rect := Rect(MmToPt(85.0), 0.0, MmToPt(203.6), MmToPt(128.5));
    assert ResolveRect(pw, ph, p) == rect;
    assert AxisScale(MmToPt(100.0), rect.Width()) == 100.0 / 118.6;
    assert AxisScale(MmToPt(150.0), rect.Height()) == 150.0 / 128.5;
  }
}
