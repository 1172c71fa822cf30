/** The scale the server passes to the PDF export so that the rendered
    document fits on one A4 page. Heights are CSS pixels; scales are exact
    rationals. */
module Fit {
  import opened Geometry

  /** The smallest scale the server ever passes to the PDF export. */
  const MinScale: real := 0.1

  /** The tallest content the floor still lets fit on one page. */
  const TallestFitting: nat := 11230

  /** The measured content height: the larger of the scroll heights of the
      `body` element and of the root element. */
  function ContentHeight(body: nat, root: nat): (h: nat)
    ensures h >= body && h >= root
    ensures h == body || h == root
  {
    if body >= root then body else root
  }

  /** The scale that makes content of height `h` exactly one page tall, or
      1 when it already fits. */
  function FitScale(h: nat): (s: real)
    ensures h <= A4HeightPx ==> s == 1.0
    ensures h > A4HeightPx ==> s * h as real == A4HeightPx as real && 0.0 < s < 1.0
  {
    if h > A4HeightPx then A4HeightPx as real / h as real else 1.0
  }

  /** The scale actually passed on: the fit scale, but never below 0.1. */
  function PdfScale(h: nat): (s: real)
    ensures MinScale <= s <= 1.0
    ensures h <= TallestFitting ==> s == FitScale(h)
    ensures h > TallestFitting ==> s == MinScale
  {
    FitScaleAtLeastFloor(h);
    var s := FitScale(h);
    if MinScale >= s then MinScale else s
  }

  /** The fit scale reaches the floor exactly at ten page heights. */
  lemma FitScaleAtLeastFloor(h: nat)
    ensures FitScale(h) >= MinScale <==> h <= TallestFitting
  {
    if h > A4HeightPx {
      var s := FitScale(h);
      assert s * h as real == 1123.0;
      if h <= TallestFitting {
        assert s * 11230.0 >= s * h as real;
      } else {
        assert s * 11230.0 < s * h as real;
      }
    }
  }

  /** Taller content never gets a larger scale. */
  lemma PdfScaleNonIncreasing(h1: nat, h2: nat)
    requires h1 <= h2
    ensures PdfScale(h2) <= PdfScale(h1)
  {
    if h1 > A4HeightPx {
      var s1, s2 := FitScale(h1), FitScale(h2);
      var r1, r2 := h1 as real, h2 as real;
      assert s2 * r1 <= s2 * r2 == 1123.0;
      CancelPositive(s2, s1, r1, 1123.0);
      FitScaleAtLeastFloor(h1);
      FitScaleAtLeastFloor(h2);
    }
  }

  /** The scaled content fits on the one exported page exactly when the
      content is at most ten pages tall; above that the floor leaves the
      rest of it past the page. */
  lemma ScaledContentFits(h: nat)
    ensures PdfScale(h) * h as real <= A4HeightPx as real <==> h <= TallestFitting
  {
    if h <= A4HeightPx {
    } else if h <= TallestFitting {
    } else {
      assert MinScale * h as real > 1123.0;
    }
  }

  /** Dividing both sides by a positive factor keeps the order. */
  lemma CancelPositive(a: real, b: real, c: real, d: real)
    requires c > 0.0 && a * c <= d && b * c == d
    ensures a <= b
  {
    assert b - a == (b * c - a * c) / c;
  }
}
