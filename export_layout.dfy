/**
 * The geometry of the snapshot card: rectangles and their insets, the
 * top-to-bottom block layout and the fitting of the two plot heights into
 * the space that is left.
 */
module ExportLayout {

  const CanvasMargin: real := 64.0
  const MinSparkPlotHeight: real := 80.0
  const MinBarsPlotHeight: real := 70.0
  const MaxSparkPlotHeight: real := 180.0
  const MaxBarsPlotHeight: real := 130.0

  /** The slack `fit_plots` allows: 1e-6. */
  const Tolerance: real := 0.000001

  function Min(a: real, b: real): real {
    if a <= b then a else b
  }

  function Max(a: real, b: real): real {
    if a >= b then a else b
  }

  datatype Rect = Rect(x: real, y: real, width: real, height: real) {
    function Bottom(): real {
      y + height
    }
    function Right(): real {
      x + width
    }
  }

  /** `Rect::inset`: moved in by `dx` and `dy`, each side shrunk by twice that, never below zero. */
  function Inset(r: Rect, dx: real, dy: real): (q: Rect)
    ensures q.x == r.x + dx && q.y == r.y + dy
    ensures q.width >= 0.0 && q.height >= 0.0
    ensures r.width >= 2.0 * dx ==> q.width == r.width - 2.0 * dx
    ensures r.height >= 2.0 * dy ==> q.height == r.height - 2.0 * dy
  {
    Rect(r.x + dx, r.y + dy, Max(r.width - 2.0 * dx, 0.0), Max(r.height - 2.0 * dy, 0.0))
  }

  /** An inset with room to spare lies inside the rectangle and keeps its centre. */
  lemma InsetInside(r: Rect, dx: real, dy: real)
    requires dx >= 0.0 && dy >= 0.0 && r.width >= 2.0 * dx && r.height >= 2.0 * dy
    ensures var q := Inset(r, dx, dy);
      r.x <= q.x && q.Right() <= r.Right() && r.y <= q.y && q.Bottom() <= r.Bottom()
      && q.x + q.width / 2.0 == r.x + r.width / 2.0
      && q.y + q.height / 2.0 == r.y + r.height / 2.0
  {
  }

  datatype LayoutReport = LayoutReport(usedHeight: real, canvasHeight: real)

  /** Each block starts one gutter below the previous one, all at the same left edge and width. */
  predicate Stacked(blocks: seq<Rect>, x: real, width: real, gutter: real) {
    (forall i :: 0 <= i < |blocks| ==> blocks[i].x == x && blocks[i].width == width)
    && forall i :: 0 <= i < |blocks| - 1 ==> blocks[i + 1].y == blocks[i].Bottom() + gutter
  }

  /** With no negative height and no negative gutter, stacked blocks do not overlap. */
  lemma {:induction false} StackedApart(blocks: seq<Rect>, x: real, width: real, gutter: real, i: nat, j: nat)
    requires Stacked(blocks, x, width, gutter) && gutter >= 0.0
    requires forall k :: 0 <= k < |blocks| ==> blocks[k].height >= 0.0
    requires i < j < |blocks|
    ensures blocks[i].Bottom() + gutter <= blocks[j].y
    decreases j
  {
    if i < j - 1 {
      StackedApart(blocks, x, width, gutter, i, j - 1);
      assert blocks[j].y == blocks[j - 1].Bottom() + gutter;
    }
  }

  /**
   * `Layout`: blocks are placed top to bottom from the margin down. The
   * ghost fields record the margin and every block placed so far.
   */
  class Layout {
    var gutter: real
    var cursorY: real
    var contentX: real
    var contentWidth: real
    ghost var margin: real
    ghost var placed: seq<Rect>

    ghost predicate Valid()
      reads this
    {
      Stacked(placed, contentX, contentWidth, gutter)
      && (placed == [] ==> cursorY == margin)
      && (placed != [] ==> placed[0].y == margin && cursorY == placed[|placed| - 1].Bottom() + gutter)
    }

    /** `Layout::new`: the cursor and the left edge at the margin, the width between the margins. */
    constructor (totalWidth: real, margin: real, gutter: real)
      ensures Valid() && placed == [] && this.margin == margin
      ensures this.gutter == gutter && cursorY == margin && contentX == margin
      ensures contentWidth == totalWidth - 2.0 * margin
    {
      this.gutter := gutter;
      cursorY := margin;
      contentX := margin;
      contentWidth := totalWidth - margin * 2.0;
      this.margin := margin;
      placed := [];
    }

    /** `place_block`: the next block at the cursor; the cursor moves past it and one gutter. */
    method PlaceBlock(height: real) returns (rect: Rect)
      requires Valid()
      modifies this
      ensures Valid()
      ensures rect == Rect(contentX, old(cursorY), contentWidth, height)
      ensures cursorY == old(cursorY) + height + gutter
      ensures placed == old(placed) + [rect]
      ensures gutter == old(gutter) && contentX == old(contentX) && contentWidth == old(contentWidth)
      ensures margin == old(margin)
    {
      rect := Rect(contentX, cursorY, contentWidth, height);
      cursorY := cursorY + height + gutter;
      placed := placed + [rect];
    }

    /** `report`: the height used down to the last block, plus the canvas margin below it. */
    function Report(canvasHeight: real): (r: LayoutReport)
      requires Valid()
      reads this
      ensures r.canvasHeight == canvasHeight
      ensures placed != [] ==> r.usedHeight == placed[|placed| - 1].Bottom() + CanvasMargin
      ensures placed == [] ==> r.usedHeight == margin - gutter + CanvasMargin
    {
      LayoutReport(cursorY - gutter + CanvasMargin, canvasHeight)
    }
  }

  /** The four cards of the snapshot, placed one after the other, do not overlap. */
  method PlaceCards(totalWidth: real, margin: real, gutter: real, heights: seq<real>) returns (rects: seq<Rect>)
    requires gutter >= 0.0
    requires forall k :: 0 <= k < |heights| ==> heights[k] >= 0.0
    ensures |rects| == |heights|
    ensures forall k :: 0 <= k < |rects| ==> rects[k].height == heights[k] && rects[k].x == margin
    ensures rects != [] ==> rects[0].y == margin
    ensures forall i, j :: 0 <= i < j < |rects| ==> rects[i].Bottom() + gutter <= rects[j].y
  {
    var layout := new Layout(totalWidth, margin, gutter);
    rects := [];
    var n := 0;
    while n < |heights|
      invariant 0 <= n <= |heights|
      invariant layout.Valid() && layout.placed == rects && |rects| == n
      invariant layout.gutter == gutter && layout.contentX == margin && layout.margin == margin
      invariant forall k :: 0 <= k < n ==> rects[k].height == heights[k]
    {
      var rect := layout.PlaceBlock(heights[n]);
      rects := rects + [rect];
      n := n + 1;
    }
    forall i, j | 0 <= i < j < |rects|
      ensures rects[i].Bottom() + gutter <= rects[j].y
    {
      StackedApart(rects, margin, layout.contentWidth, gutter, i, j);
    }
  }

  // ---- fit_plots ----

  /** The height the two plots must fit in: what is left, but never less than the two minimums. */
  function Target(minSpark: real, minBars: real, availHeight: real, staticHeight: real): real {
    Max(availHeight - staticHeight, minSpark + minBars)
  }

  /** How far a height may still shrink before its minimum. */
  function Flex(h: real, min: real): (r: real)
    ensures r >= 0.0
  {
    Max(h - min, 0.0)
  }

  /** One shrink step takes the need from the two flexes in proportion, all of it if it can. */
  lemma ShrinkStep(fs: real, fb: real, need: real)
    requires fs >= 0.0 && fb >= 0.0 && fs + fb > 0.0 && need > 0.0
    ensures var k := Min(need / (fs + fb), 1.0);
      0.0 < k <= 1.0 && fs * k <= fs && fb * k <= fb && 0.0 <= fs * k && 0.0 <= fb * k
      && fs * k + fb * k == Min(need, fs + fb)
      && (k == 1.0 ==> fs * k == fs && fb * k == fb)
  {
    var flex := fs + fb;
    var k := Min(need / flex, 1.0);
    assert k * flex == Min(need, flex) by {
      if need / flex < 1.0 {
        assert need / flex * flex == need;
      }
    }
    assert fs * k + fb * k == k * flex;
    MulAtMostOne(fs, k);
    MulAtMostOne(fb, k);
  }

  lemma MulAtMostOne(a: real, k: real)
    requires a >= 0.0 && 0.0 < k <= 1.0
    ensures 0.0 <= a * k <= a
  {
  }

  /**
   * One pass of the shrink loop ends in one of its two exits: either
   * there is no flex left, or the plots now fit within the tolerance. In
   * exact arithmetic the loop therefore never starts a second pass.
   */
  lemma ShrinkStepFits(spark: real, bars: real, minSpark: real, minBars: real, target: real)
    requires target >= minSpark + minBars && spark + bars > target
    requires Flex(spark, minSpark) + Flex(bars, minBars) > Tolerance
    ensures var flexS, flexB := Flex(spark, minSpark), Flex(bars, minBars);
      var k := Min((spark + bars - target) / (flexS + flexB), 1.0);
      (spark - flexS * k) + (bars - flexB * k) <= target + Tolerance
  {
    ShrinkStep(Flex(spark, minSpark), Flex(bars, minBars), spark + bars - target);
  }

  /**
   * `fit_plots`: when the two plots are too tall, both shrink in proportion
   * to how far each lies above its minimum; then each is raised to its
   * minimum and cut to its ceiling. The shrink loop is written as the one
   * pass it takes in exact arithmetic (`ShrinkStepFits`).
   */
  method FitPlots(spark0: real, bars0: real, minSpark: real, minBars: real, availHeight: real, staticHeight: real)
    returns (spark: real, bars: real)
    ensures spark <= MaxSparkPlotHeight && bars <= MaxBarsPlotHeight
    ensures spark0 + bars0 <= Target(minSpark, minBars, availHeight, staticHeight) ==>
      spark == Min(spark0, MaxSparkPlotHeight) && bars == Min(bars0, MaxBarsPlotHeight)
    ensures spark0 + bars0 > Target(minSpark, minBars, availHeight, staticHeight) ==>
      spark >= Min(minSpark, MaxSparkPlotHeight) && bars >= Min(minBars, MaxBarsPlotHeight)
    ensures spark0 + bars0 > Target(minSpark, minBars, availHeight, staticHeight) && spark0 >= minSpark && bars0 >= minBars ==>
      spark <= spark0 && bars <= bars0 && spark + bars <= Target(minSpark, minBars, availHeight, staticHeight) + Tolerance
  {
    spark, bars := spark0, bars0;
    var target := Target(minSpark, minBars, availHeight, staticHeight);
    var current := spark + bars;
    if current <= target {
      spark := Min(spark, MaxSparkPlotHeight);
      bars := Min(bars, MaxBarsPlotHeight);
      return;
    }
    var flexS := Flex(spark, minSpark);
    var flexB := Flex(bars, minBars);
    var flex := flexS + flexB;
    if flex > Tolerance {
      var need := current - target;
      var k := Min(need / flex, 1.0);
      ShrinkStep(flexS, flexB, need);
      spark := spark - flexS * k;
      bars := bars - flexB * k;
      current := spark + bars;
    }
    if spark < minSpark {
      spark := minSpark;
    }
    if bars < minBars {
      bars := minBars;
    }
    spark := Min(spark, MaxSparkPlotHeight);
    bars := Min(bars, MaxBarsPlotHeight);
  }
}
