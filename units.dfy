/**
  Length units of the label cutter: millimetres on the user side, PDF points
  (1/72 inch) on the page side (app.py:24-27).
 */
module Units {

  /** Points per millimetre: 72 points per inch, 25.4 mm per inch. */
  const MM_TO_PT: real := 72.0 / 25.4

  /** `mm_to_pt`: a length in millimetres as PDF points. */
  function MmToPt(mm: real): (pt: real)
    ensures pt * 25.4 == mm * 72.0
  {
    mm * MM_TO_PT
  }

  /** A length in points as millimetres (`ph / MM_TO_PT`, app.py:71). */
  function PtToMm(pt: real): (mm: real)
    ensures MmToPt(mm) == pt
  {
    pt / MM_TO_PT
  }

  lemma MmToPtRoundTrip(mm: real)
    ensures PtToMm(MmToPt(mm)) == mm
  {
  }

  /** The conversion is linear with factor 72/25.4. */
  lemma MmToPtLinear(a: real, b: real, k: real)
    ensures MmToPt(a + b) == MmToPt(a) + MmToPt(b)
    ensures MmToPt(a - b) == MmToPt(a) - MmToPt(b)
    ensures MmToPt(k * a) == k * MmToPt(a)
  {
  }

  /** The conversion preserves order (in both directions). */
  lemma MmToPtMonotone(a: real, b: real)
    ensures a <= b <==> MmToPt(a) <= MmToPt(b)
  {
  }
}
