/** The `fitToPage` routine of the fit script that `cleanHtml` injects: it
    runs inside the previewed document, works on the inline style of the
    `body` element, and shrinks a body taller than one A4 page to fit it. */
module FitRoutine {
  import opened Geometry
  import Fit

  /** The inline `transform` of the body. */
  datatype Transform = NoTransform | ScaleBy(factor: real) | AuthorTransform(css: string)

  /** The inline `transform-origin` of the body. */
  datatype Origin = DefaultOrigin | TopLeft | AuthorOrigin(css: string)

  /** The inline `width` of the body: whatever the document set, or a
      percentage set by the routine. */
  datatype Width = AuthorWidth(css: string) | WidthPercent(percent: real)

  datatype BodyStyle = BodyStyle(transform: Transform, origin: Origin, width: Width)

  /** The layout engine, seen through the one number the routine reads: the
      scroll height of the body for a given inline style of it. */
  type Layout = BodyStyle -> nat

  /** The first two statements of the routine: inline transform and
      transform origin removed, width left as it is. */
  function Reset(style: BodyStyle): (r: BodyStyle)
    ensures r.transform == NoTransform && r.origin == DefaultOrigin
    ensures r.width == style.width
  {
    style.(transform := NoTransform, origin := DefaultOrigin)
  }

  /** Whether the body, with transform and origin reset, is taller than one
      page under `layout`. */
  predicate Tall(style: BodyStyle, layout: Layout) {
    layout(Reset(style)) > A4HeightPx
  }

  /** One run of `fitToPage`. */
  function FitToPage(style: BodyStyle, layout: Layout): (r: BodyStyle)
    ensures r.transform.ScaleBy? <==> layout(Reset(style)) > A4HeightPx
    ensures r.transform.ScaleBy? ==>
      var h := layout(Reset(style));
      && r.transform.factor * h as real == A4HeightPx as real
      && 0.0 < r.transform.factor < 1.0
      && r.origin == TopLeft
      && r.width.WidthPercent?
      && r.width.percent * r.transform.factor == 100.0
    ensures !r.transform.ScaleBy? ==>
      r.transform == NoTransform && r.origin == DefaultOrigin && r.width == style.width
  {
    var cleared := Reset(style);
    var h := layout(cleared);
    if h > A4HeightPx then
      var scale := A4HeightPx as real / h as real;
      cleared.(origin := TopLeft, transform := ScaleBy(scale), width := WidthPercent(100.0 / scale))
    else
      cleared
  }

  /** The factor the routine applies is the server's fit scale for the same
      height, without the server's floor of 0.1. */
  lemma FactorIsServerFitScale(style: BodyStyle, layout: Layout)
    requires Tall(style, layout)
    ensures FitToPage(style, layout).transform.factor == Fit.FitScale(layout(Reset(style)))
    ensures layout(Reset(style)) > Fit.TallestFitting ==>
      FitToPage(style, layout).transform.factor < Fit.PdfScale(layout(Reset(style)))
  {
    var h := layout(Reset(style));
    Fit.FitScaleAtLeastFloor(h);
  }

  /** Because transform and origin are reset before the body is measured,
      whatever transform and origin the body had make no difference. */
  lemma PriorTransformIgnored(style: BodyStyle, t: Transform, o: Origin, layout: Layout)
    ensures FitToPage(style.(transform := t, origin := o), layout) == FitToPage(style, layout)
  {
    assert Reset(style.(transform := t, origin := o)) == Reset(style);
  }

  /** A layout in which the inline width of the body does not change its
      height, as when the override stylesheet pins the width with
      `!important`. */
  ghost predicate WidthBlind(layout: Layout) {
    forall s: BodyStyle, w: Width :: layout(s.(width := w)) == layout(s)
  }

  /** The routine run once for each measurement, in order: the page runs it
      three times after load, at 300, 1000 and 2500 ms. */
  function RunFits(style: BodyStyle, layouts: seq<Layout>): (r: BodyStyle)
    decreases |layouts|
  {
    if |layouts| == 0 then style else RunFits(FitToPage(style, layouts[0]), layouts[1..])
  }

  /** What the script's `onload` handler leaves on the body, given the
      layout at each of the three runs. */
  function OnLoad(style: BodyStyle, at300: Layout, at1000: Layout, at2500: Layout): BodyStyle {
    RunFits(style, [at300, at1000, at2500])
  }

  /** After load, with width-blind layouts, the body carries the transform
      and origin that the last run, at 2500 ms, sets on its own. */
  lemma OnLoadFollowsLastRun(style: BodyStyle, at300: Layout, at1000: Layout, at2500: Layout)
    requires WidthBlind(at300) && WidthBlind(at1000) && WidthBlind(at2500)
    ensures OnLoad(style, at300, at1000, at2500).transform == FitToPage(style, at2500).transform
    ensures OnLoad(style, at300, at1000, at2500).origin == FitToPage(style, at2500).origin
    ensures Tall(style, at2500) ==> OnLoad(style, at300, at1000, at2500) == FitToPage(style, at2500)
  {
    LastMeasurementWins(style, [at300, at1000, at2500]);
  }

  /** A run leaves the reset style as it was except for the width. */
  lemma ResetAfterFit(style: BodyStyle, layout: Layout)
    ensures Reset(FitToPage(style, layout)) == Reset(style).(width := FitToPage(style, layout).width)
  {
  }

  /** With width-blind layouts, transform and origin after a series of runs
      are what the last run alone would set; when the last measurement is
      tall, or none is, the whole style is. */
  lemma {:induction false} LastMeasurementWins(style: BodyStyle, layouts: seq<Layout>)
    requires |layouts| > 0
    requires forall i :: 0 <= i < |layouts| ==> WidthBlind(layouts[i])
    ensures var last := layouts[|layouts| - 1];
      && RunFits(style, layouts).transform == FitToPage(style, last).transform
      && RunFits(style, layouts).origin == FitToPage(style, last).origin
    ensures Tall(style, layouts[|layouts| - 1]) ==>
      RunFits(style, layouts) == FitToPage(style, layouts[|layouts| - 1])
    ensures (forall i :: 0 <= i < |layouts| ==> !Tall(style, layouts[i])) ==>
      RunFits(style, layouts) == FitToPage(style, layouts[|layouts| - 1])
    decreases |layouts|
  {
    var first := FitToPage(style, layouts[0]);
    if |layouts| > 1 {
      var rest := layouts[1..];
      LastMeasurementWins(first, rest);
      var last := layouts[|layouts| - 1];
      assert rest[|rest| - 1] == last;
      SameHeightAfterFit(style, layouts[0], last);
      if forall i :: 0 <= i < |layouts| ==> !Tall(style, layouts[i]) {
        assert !Tall(style, layouts[0]);
        assert first == Reset(style);
        forall i | 0 <= i < |rest|
          ensures !Tall(first, rest[i])
        {
          SameHeightAfterFit(style, layouts[0], rest[i]);
          assert !Tall(style, layouts[i + 1]);
        }
      }
    }
  }

  /** A width-blind layout measures the body the same before and after a
      run of the routine. */
  lemma SameHeightAfterFit(style: BodyStyle, earlier: Layout, layout: Layout)
    requires WidthBlind(layout)
    ensures layout(Reset(FitToPage(style, earlier))) == layout(Reset(style))
  {
    ResetAfterFit(style, earlier);
  }

  /** Running the routine again under the same width-blind layout changes
      nothing. */
  lemma FitIdempotent(style: BodyStyle, layout: Layout)
    requires WidthBlind(layout)
    ensures FitToPage(FitToPage(style, layout), layout) == FitToPage(style, layout)
  {
    LastMeasurementWins(style, [layout, layout]);
  }

  /** The width is not part of the reset: a body measured tall at one run and
      short at the next keeps the width the first run widened it to, with
      no transform left to shrink it back. */
  lemma WidthOutlivesTransform(style: BodyStyle, tall: Layout, short: Layout)
    requires WidthBlind(short)
    requires Tall(style, tall) && !Tall(style, short)
    ensures var first := FitToPage(style, tall);
      var r := RunFits(style, [tall, short]);
      && r.transform == NoTransform && r.origin == DefaultOrigin
      && r.width == first.width
      && r.width.percent * Fit.FitScale(tall(Reset(style))) == 100.0
  {
    var first := FitToPage(style, tall);
    SameHeightAfterFit(style, tall, short);
    FactorIsServerFitScale(style, tall);
    assert RunFits(first, [short]) == FitToPage(first, short);
    assert [tall, short][1..] == [short];
  }
}
