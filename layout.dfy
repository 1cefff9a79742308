/** The integer geometry of the recycling viewport (ListViewport in
    Source/HorizonalListBox.cpp): how many cells the pool holds, which column each slot of
    the pool shows, which columns count as on screen, and where the view moves to bring a
    column into sight. Positions are pixels along the content, 0 at the first column. */
module Layout {
  import opened Juce

  /** numNeeded in updateContents: one cell per column that fits wholly in the visible
      width, plus two. */
  function PoolSize(visibleWidth: int, colW: int): (n: int)
    requires visibleWidth >= 0 && colW > 0
    ensures n >= 2
    ensures (n - 2) * colW <= visibleWidth < (n - 1) * colW
  {
    2 + CDiv(visibleWidth, colW)
  }

  /** firstIndex: the column under the view's left edge. */
  function FirstIndex(x: int, colW: int): (c: int)
    requires colW > 0
    ensures x >= 0 ==> 0 <= c && c * colW <= x < c * colW + colW
  {
    CDiv(x, colW)
  }

  /** firstWholeIndex: the first column whose left edge is at or right of the view's
      left edge. */
  function FirstWholeIndex(x: int, colW: int): (c: int)
    requires colW > 0
    ensures x >= 0 ==> 0 <= c && c * colW - colW < x <= c * colW
  {
    CDiv(x + colW - 1, colW)
  }

  /** lastWholeIndex as the source computes it: the column under the view's last pixel
      x + visibleWidth - 1, i.e. the last column that is at least partly visible. */
  function LastWholeIndex(x: int, visibleWidth: int, colW: int): (c: int)
    requires colW > 0
    ensures x + visibleWidth >= 1 ==> c * colW <= x + visibleWidth - 1 < c * colW + colW
  {
    CDiv(x + visibleWidth - 1, colW)
  }

  /** The pool slot getComponentForCol looks in: col % jmax (1, poolSize) with C++'s
      remainder, which is negative for a negative column. */
  function SlotOf(col: int, poolSize: int): (k: int)
    ensures col >= 0 ==> 0 <= k < Max(1, poolSize)
    ensures col < 0 ==> k <= 0
  {
    CRem(col, Max(1, poolSize))
  }

  /** The column slot k shows once the pool of n cells has been bound to the window
      [first, first + n): the one column of the window whose slot is k. */
  function ColOfSlot(k: int, first: int, n: int): int
    requires n > 0
  {
    first + (k - first) % n
  }

  /** Binding the window [first, first + n) to the slots col % n sends column first + i
      to a slot in [0, n) that gives back that same column. */
  lemma {:induction false} SlotOfWindowCol(first: int, n: int, i: int)
    requires first >= 0 && n > 0 && 0 <= i < n
    ensures 0 <= SlotOf(first + i, n) < n
    ensures ColOfSlot(SlotOf(first + i, n), first, n) == first + i
  {
    var k := SlotOf(first + i, n);
    var q := (first + i) / n;
    assert k == (first + i) % n;
    assert k - first == i + (-q) * n;
    ModOfShift(i, -q, n);
    DivModUnique(i, n, 0, i);
  }

  /** Every slot of a bound pool shows a column of the window, and that column's slot
      is the slot itself. */
  lemma {:induction false} ColOfSlotInWindow(k: int, first: int, n: int)
    requires first >= 0 && n > 0 && 0 <= k < n
    ensures first <= ColOfSlot(k, first, n) < first + n
    ensures SlotOf(ColOfSlot(k, first, n), n) == k
  {
    var i := (k - first) % n;
    var q := (k - first) / n;
    assert first + i == k + (-q) * n;
    ModOfShift(k, -q, n);
    DivModUnique(k, n, 0, k);
  }

  /** No two slots of a bound pool show the same column. */
  lemma {:induction false} SlotsHoldDistinctCols(k1: int, k2: int, first: int, n: int)
    requires first >= 0 && n > 0 && 0 <= k1 < n && 0 <= k2 < n && k1 != k2
    ensures ColOfSlot(k1, first, n) != ColOfSlot(k2, first, n)
  {
    ColOfSlotInWindow(k1, first, n);
    ColOfSlotInWindow(k2, first, n);
  }

  /** The pool window [firstIndex, firstIndex + poolSize) holds every column that is at
      least partly inside the visible area [x, x + visibleWidth). */
  lemma PoolCoversView(x: int, visibleWidth: int, colW: int, col: int)
    requires x >= 0 && visibleWidth >= 0 && colW > 0
    requires col * colW < x + visibleWidth && x < col * colW + colW
    ensures FirstIndex(x, colW) <= col < FirstIndex(x, colW) + PoolSize(visibleWidth, colW)
  {
    var f, n := FirstIndex(x, colW), PoolSize(visibleWidth, colW);
    var fw, nw := f * colW, (n - 1) * colW;
    assert fw <= x < fw + colW;
    assert visibleWidth < nw;
    assert (col + 1) * colW == col * colW + colW;
    MulCancel(f, col + 1, colW);
    assert (f + n) * colW == fw + nw + colW;
    MulCancel(col, f + n, colW);
  }

  /** Every pixel of column col's span [col * colW, col * colW + colW) divides back to col. */
  lemma ColumnOfPixel(col: int, colW: int, dx: int)
    requires colW > 0 && col >= 0 && 0 <= dx < colW
    ensures CDiv(col * colW + dx, colW) == col
  {
    var q := CDiv(col * colW + dx, colW);
    MulMono(0, col, colW);
    assert q * colW <= col * colW + dx < q * colW + colW;
    MulCancel(q, col + 1, colW);
    MulCancel(col, q + 1, colW);
  }

  /** scrollToEnsureColIsOnscreen's policy: a column left of the first whole column is
      aligned to the left edge, one at or past lastWholeIndex to the right edge, and any
      other column leaves the view where it is (None). */
  function RevealTarget(col: int, colW: int, firstWhole: int, lastWhole: int, visibleWidth: int): Option<int>
  {
    if col < firstWhole then Some(col * colW)
    else if col >= lastWhole then Some(Max(0, (col + 1) * colW - visibleWidth))
    else None
  }

  /** The view position after asking setViewPosition for `target` (None: not asked). */
  function MoveTo(x: int, target: Option<int>, contentWidth: int, visibleWidth: int): int
  {
    match target
    case None => x
    case Some(t) => ViewClamp(t, contentWidth, visibleWidth)
  }

  /** Where the view is after a reveal from position x, given that setViewPosition clamps
      as assumed in Juce.ViewClamp. */
  function Revealed(col: int, colW: int, x: int, visibleWidth: int, contentWidth: int): int
    requires colW > 0
  {
    MoveTo(x, RevealTarget(col, colW, FirstWholeIndex(x, colW), LastWholeIndex(x, visibleWidth, colW), visibleWidth),
           contentWidth, visibleWidth)
  }

  /** Revealing an existing column from a clamped position: the clamp never alters the
      target, and afterwards the column lies between firstWholeIndex and lastWholeIndex.
      This needs a view at least one column wide. */
  lemma {:induction false} RevealConverges(col: int, colW: int, x: int, visibleWidth: int, total: int)
    requires colW > 0 && visibleWidth >= colW && 0 <= col < total
    requires 0 <= x <= Max(0, total * colW - visibleWidth)
    ensures var t := RevealTarget(col, colW, FirstWholeIndex(x, colW),
                                  LastWholeIndex(x, visibleWidth, colW), visibleWidth);
            t.Some? ==> Revealed(col, colW, x, visibleWidth, total * colW) == t.value
    ensures var x' := Revealed(col, colW, x, visibleWidth, total * colW);
            FirstWholeIndex(x', colW) <= col <= LastWholeIndex(x', visibleWidth, colW)
  {
    var fw, lw := FirstWholeIndex(x, colW), LastWholeIndex(x, visibleWidth, colW);
    if col < fw {
      RevealToLeftEdge(col, colW, x, visibleWidth, total);
      WholeIndicesAtLeftEdge(col, colW, visibleWidth);
    } else if col >= lw {
      RevealToRightEdge(col, colW, x, visibleWidth, total);
      WholeIndicesAtRightEdge(col, colW, visibleWidth);
    }
  }

  /** Revealing an existing column from a clamped position leaves it wholly on screen: it
      starts at or right of the view's left edge and ends at or left of its right edge.
      This needs a view at least one column wide. */
  lemma RevealWhollyVisible(col: int, colW: int, x: int, visibleWidth: int, total: int)
    requires colW > 0 && visibleWidth >= colW && 0 <= col < total
    requires 0 <= x <= Max(0, total * colW - visibleWidth)
    ensures var x' := Revealed(col, colW, x, visibleWidth, total * colW);
            x' <= col * colW && (col + 1) * colW <= x' + visibleWidth
  {
    var fw, lw := FirstWholeIndex(x, colW), LastWholeIndex(x, visibleWidth, colW);
    if col < fw {
      RevealToLeftEdge(col, colW, x, visibleWidth, total);
    } else if col >= lw {
      RevealToRightEdge(col, colW, x, visibleWidth, total);
      MulMono(0, col, colW);
    } else {
      MulMono(fw, col, colW);
      MulMono(col + 1, lw, colW);
    }
  }

  /** A column left of the first whole column is aligned to the left edge unclamped. */
  lemma RevealToLeftEdge(col: int, colW: int, x: int, visibleWidth: int, total: int)
    requires colW > 0 && 0 <= col < total && col < FirstWholeIndex(x, colW)
    requires 0 <= x <= Max(0, total * colW - visibleWidth)
    ensures Revealed(col, colW, x, visibleWidth, total * colW) == col * colW
  {
    var fw := FirstWholeIndex(x, colW);
    MulMono(0, col, colW);
    MulMono(col, fw - 1, colW);
    assert (fw - 1) * colW == fw * colW - colW;
  }

  /** A column at or past lastWholeIndex is aligned to the right edge unclamped. */
  lemma RevealToRightEdge(col: int, colW: int, x: int, visibleWidth: int, total: int)
    requires colW > 0 && 0 <= col < total && FirstWholeIndex(x, colW) <= col
    requires col >= LastWholeIndex(x, visibleWidth, colW)
    ensures Revealed(col, colW, x, visibleWidth, total * colW) == Max(0, (col + 1) * colW - visibleWidth)
  {
    MulMono(col + 1, total, colW);
  }

  lemma WholeIndicesAtLeftEdge(col: int, colW: int, visibleWidth: int)
    requires colW > 0 && visibleWidth >= 1 && col >= 0
    ensures FirstWholeIndex(col * colW, colW) == col
    ensures col <= LastWholeIndex(col * colW, visibleWidth, colW)
  {
    var c := FirstWholeIndex(col * colW, colW);
    assert c * colW - colW < col * colW <= c * colW;
    MulCancel(col, c + 1, colW);
    MulCancel(c - 1, col, colW);
    var l := LastWholeIndex(col * colW, visibleWidth, colW);
    assert col * colW < l * colW + colW;
    MulCancel(col, l + 1, colW);
  }

  lemma WholeIndicesAtRightEdge(col: int, colW: int, visibleWidth: int)
    requires colW > 0 && visibleWidth >= colW && col >= 0
    ensures var x := Max(0, (col + 1) * colW - visibleWidth);
            FirstWholeIndex(x, colW) <= col <= LastWholeIndex(x, visibleWidth, colW)
  {
    var x := Max(0, (col + 1) * colW - visibleWidth);
    var f, l := FirstWholeIndex(x, colW), LastWholeIndex(x, visibleWidth, colW);
    // f * colW - colW < x <= col * colW
    assert f * colW - colW < col * colW;
    MulCancel(f - 1, col, colW);
    // (col + 1) * colW - 1 <= x + visibleWidth - 1 < l * colW + colW
    assert col * colW < l * colW + colW;
    MulCancel(col, l + 1, colW);
  }

  /** ListViewport::selectCol's policy. It scrolls like RevealTarget, except that a
      selection that is not a mouse click and lands at least a screenful past the previous
      anchor pages the view so that the column is at the left edge, limited so the last
      screenful stays full. */
  function SelectColTarget(col: int, colW: int, dontScroll: bool, lastSelectedCol: int, totalCols: int,
                           isMouseClick: bool, firstWhole: int, lastWhole: int, visibleWidth: int): Option<int>
  {
    if col < firstWhole && !dontScroll then Some(col * colW)
    else if col >= lastWhole && !dontScroll then
      var colsOnScreen := lastWhole - firstWhole;
      if col >= lastSelectedCol + colsOnScreen && colsOnScreen < totalCols - 1 && !isMouseClick
      then Some(Limit(0, Max(0, totalCols - colsOnScreen), col) * colW)
      else Some(Max(0, (col + 1) * colW - visibleWidth))
    else None
  }

  /** A mouse click never takes the page-jump branch: it scrolls exactly as
      scrollToEnsureColIsOnscreen would, unless it asked not to scroll at all. */
  lemma ClickSelectionReveals(col: int, colW: int, dontScroll: bool, lastSelectedCol: int, totalCols: int,
                              firstWhole: int, lastWhole: int, visibleWidth: int)
    ensures SelectColTarget(col, colW, dontScroll, lastSelectedCol, totalCols, true, firstWhole, lastWhole, visibleWidth)
            == if dontScroll then None else RevealTarget(col, colW, firstWhole, lastWhole, visibleWidth)
  {
  }

  /** The page jump moves to a whole column inside [0, totalCols - colsOnScreen], and to
      the selected column itself when that column is not within the last screenful. */
  lemma PageJumpTarget(col: int, colW: int, lastSelectedCol: int, totalCols: int,
                       firstWhole: int, lastWhole: int, visibleWidth: int)
    requires colW > 0 && col >= lastWhole && col >= firstWhole && col >= 0
    requires col >= lastSelectedCol + (lastWhole - firstWhole) && lastWhole - firstWhole < totalCols - 1
    ensures var t := SelectColTarget(col, colW, false, lastSelectedCol, totalCols, false, firstWhole, lastWhole, visibleWidth);
            t.Some? && t.value % colW == 0 &&
            0 <= t.value <= Max(0, totalCols - (lastWhole - firstWhole)) * colW &&
            (col <= totalCols - (lastWhole - firstWhole) ==> t.value == col * colW)
  {
    var hi := Max(0, totalCols - (lastWhole - firstWhole));
    var k := Limit(0, hi, col);
    assert SelectColTarget(col, colW, false, lastSelectedCol, totalCols, false, firstWhole, lastWhole, visibleWidth)
           == Some(k * colW);
    ModOfShift(0, k, colW);
    MulMono(0, k, colW);
    MulMono(k, hi, colW);
  }

  /** updateVisibleArea's correction of a view left past the content's end: when the
      content is wider than the view but now ends left of the view's right edge, the view
      moves back so that the content ends exactly there. */
  function EndClamp(x: int, contentWidth: int, visibleWidth: int): (x': int)
    ensures x' <= x
    ensures contentWidth > visibleWidth ==> x' <= contentWidth - visibleWidth
    ensures x <= contentWidth - visibleWidth ==> x' == x
  {
    if -x + contentWidth < visibleWidth && contentWidth > visibleWidth
    then contentWidth - visibleWidth
    else x
  }
}
