/** CustomViewport (Source/CustomViewport.h): a JUCE Viewport that, whenever its visible
    area moves, snaps the view to the nearest boundary between equally wide features
    (the viewed component's width shared out over numOfItems), and that scrolls a
    rectangle into view by the least move that brings it inside. */
module Snapping {
  import opened Juce

  /** featureWidth: the viewed component's width over numOfItems, truncated. */
  function FeatureWidth(width: int, numOfItems: int): (fw: int)
    requires numOfItems > 0 && width >= numOfItems
    ensures fw >= 1 && fw * numOfItems <= width < fw * numOfItems + numOfItems
  {
    CDiv(width, numOfItems)
  }

  /** scrollTo: the feature whose boundary is nearest, counted with C++ division, times
      the feature width. */
  function Snap(scrollX: int, featureWidth: int): int
    requires featureWidth > 0
  {
    CDiv(scrollX + CDiv(featureWidth, 2), featureWidth) * featureWidth
  }

  /** The distance between two positions. */
  function Dist(a: int, b: int): nat
  {
    if a < b then b - a else a - b
  }

  /** The snapped position is a multiple of the feature width. */
  lemma SnapIsMultiple(scrollX: int, featureWidth: int)
    requires featureWidth > 0
    ensures Snap(scrollX, featureWidth) % featureWidth == 0
  {
    ModOfShift(0, CDiv(scrollX + CDiv(featureWidth, 2), featureWidth), featureWidth);
  }

  /** For a position that is not negative, the snapped position is at most half a
      feature away: less than featureWidth - featureWidth/2 below it and at most
      featureWidth/2 above it. */
  lemma SnapIsClose(scrollX: int, featureWidth: int)
    requires featureWidth > 0 && scrollX >= 0
    ensures var r := Snap(scrollX, featureWidth);
            var h := featureWidth / 2;
            && 0 <= r
            && scrollX - (featureWidth - h) < r <= scrollX + h
  {
    var h := CDiv(featureWidth, 2);
    var q := CDiv(scrollX + h, featureWidth);
    assert q * featureWidth <= scrollX + h < q * featureWidth + featureWidth;
    MulMono(0, q, featureWidth);
  }

  /** For a position that is not negative, no multiple of the feature width is nearer
      than the snapped one, and of two equally near multiples it is the higher: ties
      round up. */
  lemma SnapIsNearest(scrollX: int, featureWidth: int, k: int)
    requires featureWidth > 0 && scrollX >= 0
    ensures var r := Snap(scrollX, featureWidth);
            var m := k * featureWidth;
            && Dist(scrollX, r) <= Dist(scrollX, m)
            && (Dist(scrollX, r) == Dist(scrollX, m) ==> m <= r)
  {
    var h := CDiv(featureWidth, 2);
    var q := CDiv(scrollX + h, featureWidth);
    var r := q * featureWidth;
    var m := k * featureWidth;
    assert r <= scrollX + h < r + featureWidth;
    assert 2 * h <= featureWidth <= 2 * h + 1;
    if k < q {
      MulMono(k, q - 1, featureWidth);
      assert (q - 1) * featureWidth == r - featureWidth;
    } else if k > q {
      MulMono(q + 1, k, featureWidth);
      assert (q + 1) * featureWidth == r + featureWidth;
    }
  }

  /** A position that is already on a boundary (and not negative) stays where it is. */
  lemma SnapKeepsBoundaries(v: int, featureWidth: int)
    requires featureWidth > 0 && v >= 0 && v % featureWidth == 0
    ensures Snap(v, featureWidth) == v
  {
    var k := v / featureWidth;
    assert v == k * featureWidth;
    var h := CDiv(featureWidth, 2);
    var q := CDiv(v + h, featureWidth);
    assert q * featureWidth <= v + h < q * featureWidth + featureWidth;
    assert (k + 1) * featureWidth == v + featureWidth;
    MulCancel(q, k + 1, featureWidth);
    MulCancel(k, q + 1, featureWidth);
  }

  /** Snapping twice is snapping once. */
  lemma SnapIdempotent(scrollX: int, featureWidth: int)
    requires featureWidth > 0 && scrollX >= 0
    ensures Snap(Snap(scrollX, featureWidth), featureWidth) == Snap(scrollX, featureWidth)
  {
    SnapIsMultiple(scrollX, featureWidth);
    SnapIsClose(scrollX, featureWidth);
    SnapKeepsBoundaries(Snap(scrollX, featureWidth), featureWidth);
  }

  /** A position further right never snaps further left. */
  lemma SnapMonotone(scrollX: int, scrollX': int, featureWidth: int)
    requires featureWidth > 0 && scrollX <= scrollX'
    ensures Snap(scrollX, featureWidth) <= Snap(scrollX', featureWidth)
  {
    var h := CDiv(featureWidth, 2);
    CDivMonotone(scrollX + h, scrollX' + h, featureWidth);
    MulMono(CDiv(scrollX + h, featureWidth), CDiv(scrollX' + h, featureWidth), featureWidth);
  }

  /** One pass of visibleAreaChanged: the snapped position, as setViewPosition clamps
      it to the content. */
  function SnapPass(scrollX: int, featureWidth: int, contentWidth: int, viewWidth: int): int
    requires featureWidth > 0
  {
    ViewClamp(Snap(scrollX, featureWidth), contentWidth, viewWidth)
  }

  /** After a pass the view rests on a feature boundary, or against the end of the
      content when the boundary lies beyond it. */
  lemma SnapPassLandsOnBoundary(scrollX: int, featureWidth: int, contentWidth: int, viewWidth: int)
    requires featureWidth > 0
    ensures var r := SnapPass(scrollX, featureWidth, contentWidth, viewWidth);
            0 <= r <= Max(0, contentWidth - viewWidth)
            && (r % featureWidth == 0 || r == Max(0, contentWidth - viewWidth))
  {
    SnapIsMultiple(scrollX, featureWidth);
  }

  /** A boundary inside the scrollable range is a resting point of a pass. */
  lemma SnapPassKeepsBoundary(v: int, featureWidth: int, contentWidth: int, viewWidth: int)
    requires featureWidth > 0 && 0 <= v <= Max(0, contentWidth - viewWidth) && v % featureWidth == 0
    ensures SnapPass(v, featureWidth, contentWidth, viewWidth) == v
  {
    SnapKeepsBoundaries(v, featureWidth);
  }

  /** Moving the view makes the toolkit call visibleAreaChanged again with the new
      position. Whatever the start, the position stops moving by the third pass: after
      two passes another one changes nothing. */
  lemma {:induction false} SnapPassSettles(scrollX: int, featureWidth: int, contentWidth: int, viewWidth: int)
    requires featureWidth > 0
    ensures var y1 := SnapPass(scrollX, featureWidth, contentWidth, viewWidth);
            var y2 := SnapPass(y1, featureWidth, contentWidth, viewWidth);
            SnapPass(y2, featureWidth, contentWidth, viewWidth) == y2
  {
    var end := Max(0, contentWidth - viewWidth);
    var y1 := SnapPass(scrollX, featureWidth, contentWidth, viewWidth);
    SnapPassLandsOnBoundary(scrollX, featureWidth, contentWidth, viewWidth);
    if y1 % featureWidth == 0 {
      SnapPassKeepsBoundary(y1, featureWidth, contentWidth, viewWidth);
    } else {
      // y1 is the end of the content; its snap either overshoots, and is clamped back
      // to the end, or falls on a boundary inside the range
      var s := Snap(end, featureWidth);
      SnapIsClose(end, featureWidth);
      SnapIsMultiple(end, featureWidth);
      if s >= end {
        assert SnapPass(y1, featureWidth, contentWidth, viewWidth) == y1;
      } else {
        assert SnapPass(y1, featureWidth, contentWidth, viewWidth) == s;
        SnapPassKeepsBoundary(s, featureWidth, contentWidth, viewWidth);
      }
    }
  }

  /** The view position scrollRectIntoView asks for: the current one less the move
      constrainedWithin makes to bring the margin-expanded rectangle inside the view. */
  function ScrollTarget(view: Rect, rect: Rect, margin: Point): (p: Point)
  {
    var withMargins := rect.Expanded(margin.x, margin.y);
    var inside := withMargins.ConstrainedWithin(view);
    Point(view.x - (inside.x - withMargins.x), view.y - (inside.y - withMargins.y))
  }

  /** A rectangle whose margins already lie inside the view asks for no move. */
  lemma ScrollTargetKeepsVisible(view: Rect, rect: Rect, margin: Point)
    requires view.ContainsRect(rect.Expanded(margin.x, margin.y))
    ensures ScrollTarget(view, rect, margin) == Point(view.x, view.y)
  {
  }

  /** When the margin-expanded rectangle fits in the view, the view at the target
      position contains it. */
  lemma ScrollTargetReveals(view: Rect, rect: Rect, margin: Point)
    requires var m := rect.Expanded(margin.x, margin.y); m.w <= view.w && m.h <= view.h
    ensures var p := ScrollTarget(view, rect, margin);
            Rect(p.x, p.y, view.w, view.h).ContainsRect(rect.Expanded(margin.x, margin.y))
  {
  }

  class CustomViewport {
    var numOfItems: int
    /** The view position (getViewPositionX / getViewPositionY). */
    var viewX: int
    var viewY: int
    /** getViewWidth / getViewHeight: the size of the visible area. */
    var viewWidth: int
    var viewHeight: int
    /** The viewed component's size. */
    var contentWidth: int
    var contentHeight: int
    /** isCurrentlyScrollingOnDrag, set by the toolkit. */
    var scrollingOnDrag: bool

    /** Sizes are not negative, and the view lies where setViewPosition can put it. */
    ghost predicate Valid()
      reads this
    {
      && viewWidth >= 0 && viewHeight >= 0 && contentWidth >= 0 && contentHeight >= 0
      && 0 <= viewX <= Max(0, contentWidth - viewWidth)
      && 0 <= viewY <= Max(0, contentHeight - viewHeight)
    }

    function ViewRect(): Rect
      reads this
    {
      Rect(viewX, viewY, viewWidth, viewHeight)
    }

    /** A viewport of the given size over content of the given size, at the origin,
        with the default of two features. */
    constructor (vw: nat, vh: nat, cw: nat, ch: nat)
      ensures Valid() && numOfItems == 2 && viewX == 0 && viewY == 0 && !scrollingOnDrag
      ensures viewWidth == vw && viewHeight == vh && contentWidth == cw && contentHeight == ch
    {
      numOfItems := 2;
      viewX, viewY := 0, 0;
      viewWidth, viewHeight := vw, vh;
      contentWidth, contentHeight := cw, ch;
      scrollingOnDrag := false;
    }

    /** Viewport::setViewPosition, with the clamping assumed in Juce.ViewClamp. */
    method SetViewPosition(x: int, y: int)
      requires Valid()
      modifies this`viewX, this`viewY
      ensures Valid()
      ensures viewX == ViewClamp(x, contentWidth, viewWidth) && viewY == ViewClamp(y, contentHeight, viewHeight)
    {
      viewX := ViewClamp(x, contentWidth, viewWidth);
      viewY := ViewClamp(y, contentHeight, viewHeight);
    }

    /** visibleAreaChanged with the new visible area's left edge. Nothing happens during
        a drag-scroll; otherwise the view goes to the snapped position (and to the top).
        The feature width must not be zero: numOfItems positive and no larger than the
        content's width. */
    method VisibleAreaChanged(newAreaX: int)
      requires Valid()
      requires !scrollingOnDrag ==> numOfItems > 0 && contentWidth >= numOfItems
      modifies this`viewX, this`viewY
      ensures Valid()
      ensures scrollingOnDrag ==> viewX == old(viewX) && viewY == old(viewY)
      ensures !scrollingOnDrag ==>
                && viewX == SnapPass(newAreaX, FeatureWidth(contentWidth, numOfItems), contentWidth, viewWidth)
                && viewY == 0
    {
      if scrollingOnDrag {
        return;
      }
      var width := contentWidth;
      var scrollX := newAreaX;
      var featureWidth := CDiv(width, numOfItems);
      var activeFeature := CDiv(scrollX + CDiv(featureWidth, 2), featureWidth);
      var scrollTo := activeFeature * featureWidth;
      SetViewPosition(scrollTo, 0);
    }

    /** scrollRectIntoView: moves the view by the least amount that brings the
        rectangle with its margins inside; one already inside leaves the view where it
        is, and one that fits is inside afterwards unless the content's edge stops the
        view. */
    method ScrollRectIntoView(rect: Rect, margin: Point)
      requires Valid()
      modifies this`viewX, this`viewY
      ensures Valid()
      ensures var p := ScrollTarget(old(ViewRect()), rect, margin);
              viewX == ViewClamp(p.x, contentWidth, viewWidth) && viewY == ViewClamp(p.y, contentHeight, viewHeight)
      ensures old(ViewRect()).ContainsRect(rect.Expanded(margin.x, margin.y)) ==>
                viewX == old(viewX) && viewY == old(viewY)
      ensures var m := rect.Expanded(margin.x, margin.y);
              var p := ScrollTarget(old(ViewRect()), rect, margin);
              m.w <= viewWidth && m.h <= viewHeight
              && 0 <= p.x <= contentWidth - viewWidth && 0 <= p.y <= contentHeight - viewHeight
              ==> ViewRect().ContainsRect(m)
    {
      var viewRect := Rect(viewX, viewY, viewWidth, viewHeight);
      var rectWithMargins := rect.Expanded(margin.x, margin.y);
      var inside := rectWithMargins.ConstrainedWithin(viewRect);
      var movedByX, movedByY := inside.x - rectWithMargins.x, inside.y - rectWithMargins.y;
      if viewRect.ContainsRect(rectWithMargins) {
        ScrollTargetKeepsVisible(viewRect, rect, margin);
      }
      if rectWithMargins.w <= viewWidth && rectWithMargins.h <= viewHeight {
        ScrollTargetReveals(viewRect, rect, margin);
      }
      SetViewPosition(viewX - movedByX, viewY - movedByY);
    }
  }
}
