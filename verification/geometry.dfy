/** The A4 page as both halves of the program see it: ISO 216 gives the
    sheet in millimetres, and the renderers work in CSS pixels at 96 per
    inch (25.4 mm). */
module Geometry {
  /** ISO 216 A4, in millimetres. */
  const A4WidthMm: nat := 210
  const A4HeightMm: nat := 297

  /** The pixel size both the upload page and the server use for the page. */
  const A4WidthPx: nat := 794
  const A4HeightPx: nat := 1123

  /** A length in whole millimetres converted to CSS pixels (96 per 25.4 mm)
      and rounded to the nearest pixel, halves rounding up. */
  function MmToPx(mm: nat): (px: nat)
    ensures 254 * px <= 960 * mm + 127
    ensures 960 * mm + 127 < 254 * (px + 1)
  {
    (960 * mm + 127) / 254
  }

  /** A rounded conversion is the nearest pixel: no other whole number is
      closer to the exact value `960 * mm / 254`. */
  lemma MmToPxIsNearest(mm: nat, other: nat)
    ensures var px := MmToPx(mm);
      Distance(254 * px, 960 * mm) <= Distance(254 * other, 960 * mm)
  {
    var px := MmToPx(mm);
    if other < px {
      assert 254 * other <= 254 * (px - 1);
    } else if other > px {
      assert 254 * other >= 254 * (px + 1);
    }
  }

  function Distance(a: int, b: int): nat {
    if a < b then b - a else a - b
  }

  /** 794 x 1123 px is the A4 sheet, 210 x 297 mm, at 96 pixels per inch. */
  lemma A4PixelsAreA4Millimetres()
    ensures A4WidthPx == MmToPx(A4WidthMm)
    ensures A4HeightPx == MmToPx(A4HeightMm)
  {
  }
}
