/** HorizontalListBox::ListViewport (Source/HorizonalListBox.cpp:130-284): the viewport
    that shows the columns through a small pool of recycled cells. Cell k of the pool
    shows, after a remap, the one column of the window [firstIndex, firstIndex + poolSize)
    whose slot (column % poolSize) is k. The list box it belongs to is passed in as an
    Owner value: the fields of the list box the viewport reads. */
module ListViewports {
  import opened Juce
  import opened Layout
  import opened Cells

  /** What the viewport reads of its list box: the column width, the number of columns,
      the minimum content height (minimumColWidth, which feeds the content's height) and
      the selection. */
  datatype Owner = Owner(colWidth: int, totalItems: int, minimumColWidth: int, selected: set<int>)

  /** The viewport's placement inside the list box (getX, getY, getWidth) and the size
      of its visible area (getMaximumVisibleWidth, getMaximumVisibleHeight), all set by
      the toolkit's layout. */
  datatype ViewBounds = ViewBounds(x: int, y: int, width: int, visibleWidth: int, visibleHeight: int)

  /** getIndexOfChildComponent: a cell's position among the content's children, which
      are the pool's cells in order, or -1. */
  function IndexOf(s: seq<ColumnComponent>, c: ColumnComponent): (k: int)
    ensures -1 <= k < |s|
    ensures k == -1 <==> c !in s
    ensures k >= 0 ==> s[k] == c
  {
    if s == [] then -1
    else if s[0] == c then 0
    else
      var k := IndexOf(s[1..], c);
      if k < 0 then -1 else k + 1
  }

  /** Cell c shows column col of the list box o, laid out at the column's place in the
      content with content height h. */
  ghost predicate Shows(c: ColumnComponent, col: int, o: Owner, h: int)
    reads c
  {
    && c.col == col
    && c.selected == (col in o.selected)
    && c.boundsX == col * o.colWidth && c.boundsWidth == o.colWidth && c.boundsHeight == h
  }

  class ListViewport {
    /** The view position (getViewPositionX / getViewPositionY). */
    var viewX: int
    var viewY: int
    var bounds: ViewBounds
    /** The viewed content component's width and height. */
    var contentWidth: int
    var contentHeight: int
    /** The pool of cells (OwnedArray<ColumnComponent> cols). */
    var cols: seq<ColumnComponent>
    var firstIndex: int
    var firstWholeIndex: int
    var lastWholeIndex: int
    var hasUpdated: bool
    ghost var Repr: set<object>

    ghost predicate Valid()
      reads this, Repr
    {
      && this in Repr
      && (forall k :: 0 <= k < |cols| ==> cols[k] in Repr)
      && (forall j, k :: 0 <= j < k < |cols| ==> cols[j] != cols[k])
      && bounds.visibleWidth >= 0 && viewX >= 0 && firstIndex >= 0
    }

    /** The content has the extent updateVisibleArea gives it for the list box o. */
    ghost predicate Synced(o: Owner)
      reads this
    {
      contentWidth == o.totalItems * o.colWidth && contentHeight == Max(o.minimumColWidth, bounds.visibleHeight)
    }

    /** The state a remap with the list box o leaves: the pool has 2 + visibleWidth/colW
        cells, the cached indices describe the current view position, and every slot
        shows its column of the window. */
    ghost predicate Bound(o: Owner)
      reads this, cols
    {
      && o.colWidth > 0 && bounds.visibleWidth >= 0
      && |cols| == PoolSize(bounds.visibleWidth, o.colWidth)
      && firstIndex == FirstIndex(viewX, o.colWidth)
      && firstWholeIndex == FirstWholeIndex(viewX, o.colWidth)
      && lastWholeIndex == LastWholeIndex(viewX, bounds.visibleWidth, o.colWidth)
      && forall k :: 0 <= k < |cols| ==> Shows(cols[k], ColOfSlot(k, firstIndex, |cols|), o, contentHeight)
    }

    constructor ()
      ensures Valid() && fresh(Repr)
      ensures viewX == 0 && viewY == 0 && bounds == ViewBounds(0, 0, 0, 0, 0)
      ensures contentWidth == 0 && contentHeight == 0
      ensures cols == [] && firstIndex == 0 && firstWholeIndex == 0 && lastWholeIndex == 0 && !hasUpdated
    {
      viewX, viewY := 0, 0;
      bounds := ViewBounds(0, 0, 0, 0, 0);
      contentWidth, contentHeight := 0, 0;
      cols := [];
      firstIndex, firstWholeIndex, lastWholeIndex := 0, 0, 0;
      hasUpdated := false;
      Repr := {this};
    }

    /** getComponentForCol: the cell in slot col % max (1, poolSize), with C++'s remainder;
        null when that index is outside the pool (OwnedArray's operator[]). */
    function GetComponentForCol(col: int): (c: ColumnComponent?)
      reads this
      ensures c != null ==> c in cols
      ensures col >= 0 && |cols| > 0 ==> c != null
      ensures |cols| == 0 ==> c == null
    {
      var k := SlotOf(col, |cols|);
      if 0 <= k < |cols| then cols[k] else null
    }

    /** getComponentForColIfOnscreen: the cell of a column of the window, else null. */
    function GetComponentForColIfOnscreen(col: int): (c: ColumnComponent?)
      reads this
      ensures c != null <==> firstIndex <= col < firstIndex + |cols| && (col >= 0 || GetComponentForCol(col) != null)
      ensures c != null ==> c in cols
    {
      if firstIndex <= col < firstIndex + |cols| then GetComponentForCol(col) else null
    }

    /** getColNumberOfComponent: searches the window, from its end, for the column whose
        slot is the cell's position in the pool. A cell of the pool gets back a column
        whose cell it is; anything else gets -1. */
    method GetColNumberOfComponent(comp: ColumnComponent?) returns (r: int)
      requires firstIndex >= 0
      ensures comp != null && comp in cols ==>
                firstIndex <= r < firstIndex + |cols| && GetComponentForColIfOnscreen(r) == comp
      ensures comp == null || comp !in cols ==> r == -1
    {
      var index := if comp == null then -1 else IndexOf(cols, comp);
      var num := |cols|;
      // the offset whose column has slot `index`, if the cell is in the pool
      ghost var target := -1;
      if index >= 0 {
        ColOfSlotInWindow(index, firstIndex, num);
        target := (index - firstIndex) % num;
      }
      var i := num - 1;
      while i >= 0
        invariant -1 <= i < num
        invariant target <= i
      {
        if CRem(firstIndex + i, Max(1, num)) == index {
          return firstIndex + i;
        }
        i := i - 1;
      }
      return -1;
    }

    /** updateContents: resizes the pool to 2 + visibleWidth/colW cells, caches the
        window indices for the current view position, and binds column firstIndex + i to
        slot (firstIndex + i) % poolSize for every i. Without a positive column width it
        only records that it ran. */
    method UpdateContents(o: Owner)
      requires Valid()
      modifies Repr
      ensures Valid() && fresh(Repr - old(Repr))
      ensures hasUpdated
      ensures viewX == old(viewX) && viewY == old(viewY) && bounds == old(bounds)
      ensures contentWidth == old(contentWidth) && contentHeight == old(contentHeight)
      ensures o.colWidth > 0 ==> Bound(o)
      ensures o.colWidth <= 0 ==> cols == old(cols) && firstIndex == old(firstIndex)
                                  && firstWholeIndex == old(firstWholeIndex) && lastWholeIndex == old(lastWholeIndex)
    {
      hasUpdated := true;
      var colW := o.colWidth;
      if colW > 0 {
        var x := viewX;
        var h := contentHeight;
        var numNeeded := PoolSize(bounds.visibleWidth, colW);
        ResizePool(numNeeded);
        firstIndex := FirstIndex(x, colW);
        firstWholeIndex := FirstWholeIndex(x, colW);
        lastWholeIndex := LastWholeIndex(x, bounds.visibleWidth, colW);
        BindSlots(o, h);
      }
    }

    /** The pool-resizing part of updateContents: cells past numNeeded are removed
        (removeRange), then new cells are appended until there are numNeeded. */
    method ResizePool(numNeeded: int)
      requires Valid() && numNeeded >= 0
      modifies this
      ensures Valid() && fresh(Repr - old(Repr))
      ensures |cols| == numNeeded
      ensures numNeeded <= |old(cols)| ==> cols == old(cols)[..numNeeded]
      ensures numNeeded > |old(cols)| ==> cols[..|old(cols)|] == old(cols)
      ensures viewX == old(viewX) && viewY == old(viewY) && bounds == old(bounds)
      ensures contentWidth == old(contentWidth) && contentHeight == old(contentHeight)
      ensures firstIndex == old(firstIndex) && hasUpdated == old(hasUpdated)
      ensures firstWholeIndex == old(firstWholeIndex) && lastWholeIndex == old(lastWholeIndex)
    {
      if numNeeded < |cols| {
        cols := cols[..numNeeded];
      }
      while numNeeded > |cols|
        invariant Valid() && fresh(Repr - old(Repr))
        invariant numNeeded <= |old(cols)| ==> cols == old(cols)[..numNeeded]
        invariant numNeeded > |old(cols)| ==> |old(cols)| <= |cols| <= numNeeded && cols[..|old(cols)|] == old(cols)
        invariant viewX == old(viewX) && viewY == old(viewY) && bounds == old(bounds)
        invariant contentWidth == old(contentWidth) && contentHeight == old(contentHeight)
        invariant firstIndex == old(firstIndex) && hasUpdated == old(hasUpdated)
        invariant firstWholeIndex == old(firstWholeIndex) && lastWholeIndex == old(lastWholeIndex)
        decreases numNeeded - |cols|
      {
        var cell := new ColumnComponent();
        cols := cols + [cell];
        Repr := Repr + {cell};
      }
    }

    /** The binding loop of updateContents: for i in [0, poolSize), column firstIndex + i
        is laid out and shown, with its selection state, by the cell getComponentForCol
        gives for it. */
    method BindSlots(o: Owner, h: int)
      requires Valid() && o.colWidth > 0 && |cols| > 0
      modifies set k | 0 <= k < |cols| :: cols[k]
      ensures forall k :: 0 <= k < |cols| ==> Shows(cols[k], ColOfSlot(k, firstIndex, |cols|), o, h)
    {
      var colW := o.colWidth;
      var n := |cols|;
      var i := 0;
      while i < n
        invariant 0 <= i <= n
        invariant forall c :: firstIndex <= c < firstIndex + i ==> Shows(cols[SlotOf(c, n)], c, o, h)
      {
        var col := i + firstIndex;
        var colComp := GetComponentForCol(col);
        SlotOfWindowCol(firstIndex, n, i);
        forall c | firstIndex <= c < col
          ensures SlotOf(c, n) != SlotOf(col, n)
        {
          SlotOfWindowCol(firstIndex, n, c - firstIndex);
        }
        if colComp != null {
          colComp.SetBounds(col * colW, colW, h);
          colComp.Update(col, col in o.selected);
        }
        i := i + 1;
      }
      forall k | 0 <= k < n
        ensures Shows(cols[k], ColOfSlot(k, firstIndex, n), o, h)
      {
        ColOfSlotInWindow(k, firstIndex, n);
      }
    }

    /** updateVisibleArea: gives the content the extent totalItems * colWidth by
        max (minimumColWidth, visible height), pulls a view left past the content's end
        back (Layout.EndClamp), and remaps when asked to or when the view moved. */
    method UpdateVisibleArea(o: Owner, makeSureItUpdatesContent: bool)
      requires Valid()
      modifies Repr
      ensures Valid() && fresh(Repr - old(Repr)) && Synced(o)
      ensures viewX == EndClamp(old(viewX), contentWidth, bounds.visibleWidth)
      ensures viewY == old(viewY) && bounds == old(bounds)
      ensures makeSureItUpdatesContent || viewX != old(viewX) ==> hasUpdated && (o.colWidth > 0 ==> Bound(o))
      ensures !(makeSureItUpdatesContent || viewX != old(viewX)) ==>
                && !hasUpdated && cols == old(cols) && firstIndex == old(firstIndex)
                && firstWholeIndex == old(firstWholeIndex) && lastWholeIndex == old(lastWholeIndex)
                && Repr == old(Repr) && forall k :: 0 <= k < |cols| ==> unchanged(cols[k])
    {
      hasUpdated := false;
      var newW := o.totalItems * o.colWidth;
      var newH := Max(o.minimumColWidth, bounds.visibleHeight);
      // the content's left edge is at -viewX
      var newX := EndClamp(viewX, newW, bounds.visibleWidth);
      contentWidth, contentHeight := newW, newH;
      if newX != viewX {
        viewX := newX;
        // Moving the content makes the toolkit call visibleAreaChanged, which re-enters
        // updateVisibleArea (true): that pass finds these bounds already set and remaps.
        UpdateContents(o);
      }
      if makeSureItUpdatesContent && !hasUpdated {
        UpdateContents(o);
      }
    }

    /** visibleAreaChanged */
    method VisibleAreaChanged(o: Owner)
      requires Valid()
      modifies Repr
      ensures Valid() && fresh(Repr - old(Repr)) && Synced(o)
      ensures viewX == EndClamp(old(viewX), contentWidth, bounds.visibleWidth)
      ensures viewY == old(viewY) && bounds == old(bounds)
      ensures hasUpdated && (o.colWidth > 0 ==> Bound(o))
    {
      UpdateVisibleArea(o, true);
    }

    /** setViewPosition (x, viewY): the toolkit clamps x (Juce.ViewClamp) and, when the
        view actually moves, calls visibleAreaChanged. */
    method SetViewPosition(o: Owner, x: int)
      requires Valid() && Synced(o)
      modifies Repr
      ensures Valid() && fresh(Repr - old(Repr)) && Synced(o)
      ensures viewX == ViewClamp(x, contentWidth, bounds.visibleWidth)
      ensures viewY == old(viewY) && bounds == old(bounds)
      ensures viewX != old(viewX) ==> hasUpdated && (o.colWidth > 0 ==> Bound(o))
      ensures viewX == old(viewX) ==> unchanged(this) && forall k :: 0 <= k < |cols| ==> unchanged(cols[k])
    {
      var newX := ViewClamp(x, contentWidth, bounds.visibleWidth);
      if newX != viewX {
        viewX := newX;
        VisibleAreaChanged(o);
      }
    }

    /** ListViewport::selectCol: scrolls as Layout.SelectColTarget says, then remaps
        unless the scroll already did. */
    method SelectCol(o: Owner, col: int, colW: int, dontScroll: bool, lastSelectedCol: int,
                     totalCols: int, isMouseClick: bool)
      requires Valid() && Synced(o)
      modifies Repr
      ensures Valid() && fresh(Repr - old(Repr)) && Synced(o)
      ensures viewX == MoveTo(old(viewX), SelectColTarget(col, colW, dontScroll, lastSelectedCol, totalCols, isMouseClick,
                                                         old(firstWholeIndex), old(lastWholeIndex), bounds.visibleWidth),
                              contentWidth, bounds.visibleWidth)
      ensures viewY == old(viewY) && bounds == old(bounds)
      ensures hasUpdated && (o.colWidth > 0 ==> Bound(o))
    {
      hasUpdated := false;
      if col < firstWholeIndex && !dontScroll {
        SetViewPosition(o, col * colW);
      } else if col >= lastWholeIndex && !dontScroll {
        var colsOnScreen := lastWholeIndex - firstWholeIndex;
        if col >= lastSelectedCol + colsOnScreen && colsOnScreen < totalCols - 1 && !isMouseClick {
          SetViewPosition(o, Limit(0, Max(0, totalCols - colsOnScreen), col) * colW);
        } else {
          SetViewPosition(o, Max(0, (col + 1) * colW - bounds.visibleWidth));
        }
      }
      if !hasUpdated {
        UpdateContents(o);
      }
    }

    /** ListViewport::scrollToEnsureColIsOnscreen: scrolls as Layout.RevealTarget says.
        From a remapped state, an existing column ends up wholly on screen, and so between
        firstWholeIndex and lastWholeIndex (for a view at least one column wide). */
    method ScrollToEnsureColIsOnscreen(o: Owner, col: int, colw: int)
      requires Valid() && Synced(o)
      modifies Repr
      ensures Valid() && fresh(Repr - old(Repr)) && Synced(o)
      ensures viewX == MoveTo(old(viewX), RevealTarget(col, colw, old(firstWholeIndex), old(lastWholeIndex),
                                                       bounds.visibleWidth),
                              contentWidth, bounds.visibleWidth)
      ensures viewY == old(viewY) && bounds == old(bounds)
      ensures old(Bound(o)) ==> Bound(o)
      ensures old(Bound(o)) && colw == o.colWidth && bounds.visibleWidth >= colw && 0 <= col < o.totalItems
              && old(viewX) <= Max(0, contentWidth - bounds.visibleWidth)
              ==> firstWholeIndex <= col <= lastWholeIndex
                  && viewX <= col * colw && (col + 1) * colw <= viewX + bounds.visibleWidth
    {
      ghost var wasBound := Bound(o);
      if col < firstWholeIndex {
        SetViewPosition(o, col * colw);
      } else if col >= lastWholeIndex {
        SetViewPosition(o, Max(0, (col + 1) * colw - bounds.visibleWidth));
      }
      if wasBound && colw == o.colWidth && bounds.visibleWidth >= colw && 0 <= col < o.totalItems
         && old(viewX) <= Max(0, contentWidth - bounds.visibleWidth) {
        RevealConverges(col, colw, old(viewX), bounds.visibleWidth, o.totalItems);
        RevealWhollyVisible(col, colw, old(viewX), bounds.visibleWidth, o.totalItems);
      }
    }

    /** After a remap, every column of the window is shown by the cell
        getComponentForColIfOnscreen finds for it, with its selection state. */
    lemma WindowShown(o: Owner, col: int)
      requires Valid() && Bound(o) && firstIndex <= col < firstIndex + |cols|
      ensures GetComponentForColIfOnscreen(col) != null
      ensures Shows(GetComponentForColIfOnscreen(col), col, o, contentHeight)
    {
      SlotOfWindowCol(firstIndex, |cols|, col - firstIndex);
    }

    /** After a remap, every column that is at least partly visible has a cell showing it. */
    lemma VisibleColumnShown(o: Owner, col: int)
      requires Valid() && Bound(o)
      requires col * o.colWidth < viewX + bounds.visibleWidth && viewX < col * o.colWidth + o.colWidth
      ensures GetComponentForColIfOnscreen(col) != null
      ensures Shows(GetComponentForColIfOnscreen(col), col, o, contentHeight)
    {
      PoolCoversView(viewX, bounds.visibleWidth, o.colWidth, col);
      WindowShown(o, col);
    }

    /** After a remap no two cells show the same column. */
    lemma CellsShowDistinctColumns(o: Owner, j: int, k: int)
      requires Valid() && Bound(o) && 0 <= j < k < |cols|
      ensures cols[j].col != cols[k].col
    {
      SlotsHoldDistinctCols(j, k, firstIndex, |cols|);
    }
  }
}
