/**
  The page side of `build_crop_and_fit` (app.py:61-114): each output is a
  deep copy of the selected page whose boxes are reassigned; the fit copy
  also gets a content transformation. Serialising the pages to bytes is not
  part of this model.
 */
module Pages {
  import opened Wrappers
  import opened Units
  import opened Geometry

  /**
    A PyPDF2 page as far as this program touches it: its media box, its
    crop box, and the transformations added to its content, oldest first.
   */
  class Page {
    var mediabox: Rect
    var cropbox: Rect
    var transforms: seq<Affine>

    constructor (mediabox: Rect, cropbox: Rect)
      ensures this.mediabox == mediabox && this.cropbox == cropbox && transforms == []
    {
      this.mediabox := mediabox;
      this.cropbox := cropbox;
      transforms := [];
    }

    /** `deepcopy(page)` (app.py:84, 100): a new page with the same state. */
    constructor CopyOf(src: Page)
      ensures mediabox == src.mediabox && cropbox == src.cropbox && transforms == src.transforms
    {
      mediabox := src.mediabox;
      cropbox := src.cropbox;
      transforms := src.transforms;
    }

    /**
      The four corner assignments of app.py:85-88 (and 101-104): crop box
      and media box both become `(x0, y0, x1, y1)`; the content is untouched.
     */
    method SetBoxes(x0: real, y0: real, x1: real, y1: real)
      modifies this
      ensures cropbox == Rect(x0, y0, x1, y1) && mediabox == Rect(x0, y0, x1, y1)
      ensures transforms == old(transforms)
    {
      cropbox := cropbox.(llx := x0, lly := y0);
      cropbox := cropbox.(urx := x1, ury := y1);
      mediabox := mediabox.(llx := x0, lly := y0);
      mediabox := mediabox.(urx := x1, ury := y1);
    }

    /** `add_transformation` (app.py:105): the boxes stay as they are. */
    method AddTransformation(m: Affine)
      modifies this
      ensures transforms == old(transforms) + [m]
      ensures mediabox == old(mediabox) && cropbox == old(cropbox)
    {
      transforms := transforms + [m];
    }
  }

  datatype Error = InvalidPageIndex

  /**
    What `build_crop_and_fit` returns: the exact crop page, the fit page and
    the numbers of the debug string (page size, crop rectangle, target size,
    scale).
   */
  datatype Output = Output(crop: Page, fit: Page, debug: Debug)

  datatype Debug = Debug(pw: real, ph: real, rect: Rect, wOut: real, hOut: real, scale: real)

  /**
    `build_crop_and_fit` on an already parsed document `doc`. An index
    outside `[0, |doc|)` is an error before any geometry runs. Otherwise the
    crop page has both boxes equal to the clamped rectangle and the source
    page's content; the fit page has both boxes equal to the target canvas
    `(0, 0, wOut, hOut)`, whatever the rectangle, and its content carries
    one more transformation, translate-then-scale by the fit scale. Both are
    new pages: nothing that existed before, the source page included, is
    changed.
   */
  method BuildCropAndFit(doc: seq<Page>, pageIndex: int, p: Params) returns (r: Result<Output, Error>)
    ensures r.Failure? <==> pageIndex < 0 || pageIndex >= |doc|
    ensures r.Failure? ==> r.error == InvalidPageIndex
    ensures r.Success? ==>
      var src, o := doc[pageIndex], r.value;
      var g := Resolve(src.mediabox, p);
      && fresh(o.crop) && fresh(o.fit) && o.crop != o.fit
      && o.crop.cropbox == g.rect && o.crop.mediabox == g.rect
      && o.crop.transforms == src.transforms
      && o.fit.cropbox == Rect(0.0, 0.0, g.wOut, g.hOut)
      && o.fit.mediabox == Rect(0.0, 0.0, g.wOut, g.hOut)
      && o.fit.transforms == src.transforms + [FitMap(g.rect, g.scale)]
      && o.debug == Debug(g.pw, g.ph, g.rect, g.wOut, g.hOut, g.scale)
  {
    if pageIndex < 0 || pageIndex >= |doc| {
      return Failure(InvalidPageIndex);
    }
    var page := doc[pageIndex];
    var pw, ph := page.mediabox.Width(), page.mediabox.Height();
    var rect := ResolveRect(pw, ph, p);
    var x0, y0, x1, y1 := rect.llx, rect.lly, rect.urx, rect.ury;

    var pageCrop := new Page.CopyOf(page);
    pageCrop.SetBoxes(x0, y0, x1, y1);
    var wPt, hPt := pageCrop.mediabox.Width(), pageCrop.mediabox.Height();

    var wOut, hOut := MmToPt(p.targetWidthMm), MmToPt(p.targetHeightMm);
    var tx, ty := -x0, -y0;
    var sx, sy := AxisScale(wOut, wPt), AxisScale(hOut, hPt);
    var s := Min(sx, sy);
    assert wPt == rect.Width() && hPt == rect.Height();
    ResolveSteps(page.mediabox, p, rect, sx, sy);

    var pageFit := new Page.CopyOf(page);
    pageFit.SetBoxes(x0, y0, x1, y1);
    pageFit.AddTransformation(Scale(Translate(Identity, tx, ty), s, s));
    pageFit.mediabox := Rect(0.0, 0.0, wOut, hOut);
    pageFit.cropbox := Rect(0.0, 0.0, wOut, hOut);

    r := Success(Output(pageCrop, pageFit, Debug(pw, ph, rect, wOut, hOut, s)));
  }

  /**
    A freshly read A4 page (both boxes 210 x 297 mm, no transformation yet)
    run through `build_crop_and_fit` with the label rectangle of
    `A4LabelExample`: the crop page is cut to 85..203.6 x 113..277 mm, the
    fit page is 100 x 150 mm, and the crop is scaled by 100 / 118.6.
   */
  method A4LabelRun() returns (o: Output)
    ensures o.crop.mediabox == Rect(MmToPt(85.0), MmToPt(113.0), MmToPt(203.6), MmToPt(277.0))
    ensures o.crop.transforms == []
    ensures o.fit.mediabox == Rect(0.0, 0.0, MmToPt(100.0), MmToPt(150.0))
    ensures o.debug.scale == 100.0 / 118.6
  {
    var a4 := Rect(0.0, 0.0, MmToPt(210.0), MmToPt(297.0));
    var page := new Page(a4, a4);
    var p := Params(85.0, 34.0, 100.0, 150.0, 14.0, 18.6, 0.0, 0.0, 100.0, 150.0);
    A4LabelExample();
    var r := BuildCropAndFit([page], 0, p);
    o := r.value;
  }
}
