/** HorizontalListBox (Source/HorizontalListBox.h, Source/HorizonalListBox.cpp:309-688):
    the list box's own state and the operations on it. Each selection method performs,
    on the fields, the step that the Selection module defines on values, and keeps the
    viewport's cells in step with the selection. The data model is reduced to its row
    count; the notifications the list box sends it are recorded in `log`. */
module ListBox {
  import opened Juce
  import opened Layout
  import opened Cells
  import opened ListViewports
  import Sel = Selection

  /** The data model, as far as the list box asks it anything: getNumRows. */
  class ListBoxModel {
    var numRows: nat

    constructor (rows: nat)
      ensures numRows == rows
    {
      numRows := rows;
    }
  }

  class HorizontalListBox {
    var model: ListBoxModel?
    var viewport: ListViewport
    var selected: set<int>
    var totalItems: int
    var colWidth: int
    var minimumColWidth: int
    var lastColSelected: int
    var multipleSelection: bool
    var alwaysFlipSelection: bool
    var hasDoneInitialUpdate: bool
    var selectOnMouseDown: bool
    /** isVisible, getWidth and getHeight, set by the toolkit. */
    var visible: bool
    var width: int
    var height: int
    /** The notifications sent to the model, oldest first. */
    ghost var log: seq<Sel.Event>
    ghost var Repr: set<object>

    /** The fields of this list box the viewport reads. */
    function AsOwner(): Owner
      reads this
    {
      Owner(colWidth, totalItems, minimumColWidth, selected)
    }

    function Flags(): Sel.Flags
      reads this
    {
      Sel.Flags(multipleSelection, alwaysFlipSelection, model != null)
    }

    ghost function State(): Sel.SelState
      reads this
    {
      Sel.SelState(selected, lastColSelected, log)
    }

    /** The list box owns its viewport, and the column width is at least 1. */
    ghost predicate Frame()
      reads this, Repr
    {
      && this in Repr && viewport in Repr && viewport.Repr <= Repr && this !in viewport.Repr
      && viewport.Valid()
      && colWidth >= 1 && totalItems >= 0
    }

    /** Besides, without a model there are no rows (updateContent sets totalItems to 0
        then, and setModel calls updateContent), and the viewport's content has the extent
        updateVisibleArea gives it for the current settings. */
    ghost predicate Valid()
      reads this, Repr
    {
      Frame() && (model == null ==> totalItems == 0) && viewport.Synced(AsOwner())
    }

    /** The defaults of the header: column width 22, no rows, nothing selected, no
        anchor, single selection, selection on mouse-down. */
    constructor (m: ListBoxModel?)
      ensures Valid() && fresh(Repr - {m})
      ensures model == m && selected == {} && lastColSelected == -1 && log == []
      ensures totalItems == 0 && colWidth == 22 && minimumColWidth == 0
      ensures !multipleSelection && !alwaysFlipSelection && selectOnMouseDown && !hasDoneInitialUpdate
    {
      model := m;
      viewport := new ListViewport();
      selected := {};
      totalItems, colWidth, minimumColWidth := 0, 22, 0;
      lastColSelected := -1;
      multipleSelection, alwaysFlipSelection, hasDoneInitialUpdate, selectOnMouseDown := false, false, false, true;
      visible, width, height := false, 0, 0;
      log := [];
      new;
      Repr := {this} + viewport.Repr;
    }

    method SetMultipleSelectionEnabled(b: bool)
      requires Valid()
      modifies this`multipleSelection
      ensures Valid() && multipleSelection == b
    {
      multipleSelection := b;
    }

    method SetClickingTogglesColumnSelection(b: bool)
      requires Valid()
      modifies this`alwaysFlipSelection
      ensures Valid() && alwaysFlipSelection == b
    {
      alwaysFlipSelection := b;
    }

    method SetColumnSelectedOnMouseDown(b: bool)
      requires Valid()
      modifies this`selectOnMouseDown
      ensures Valid() && selectOnMouseDown == b
    {
      selectOnMouseDown := b;
    }

    /** updateContent: re-reads the row count, drops selected columns that no longer
        exist, resizes the content and remaps when visible, then tells the model if the
        selection changed. */
    method UpdateContent()
      requires Frame()
      modifies this`hasDoneInitialUpdate, this`totalItems, this`selected, this`lastColSelected, this`log,
               this`Repr, viewport.Repr
      ensures Valid() && fresh(Repr - old(Repr))
      ensures hasDoneInitialUpdate
      ensures totalItems == old(if model != null then model.numRows else 0)
      ensures State() == Sel.UpdateContentSelection(old(State()), totalItems, model != null)
      ensures viewport.contentWidth == totalItems * colWidth
      ensures viewport.contentHeight == Max(minimumColWidth, viewport.bounds.visibleHeight)
      ensures visible ==> viewport.Bound(AsOwner())
    {
      ReloadRows();
      viewport.UpdateVisibleArea(AsOwner(), visible);
      Repr := Repr + viewport.Repr;
    }

    /** updateContent's own part: the row count is read again and, when the highest
        selected column no longer exists, the columns from totalItems on are dropped, the
        anchor becomes the lowest remaining one and the model is told. (The source tells
        the model after the viewport's update; nothing modelled here observes that
        order.) */
    method ReloadRows()
      modifies this`hasDoneInitialUpdate, this`totalItems, this`selected, this`lastColSelected, this`log
      ensures hasDoneInitialUpdate
      ensures totalItems == old(if model != null then model.numRows else 0)
      ensures State() == Sel.UpdateContentSelection(old(State()), totalItems, model != null)
    {
      hasDoneInitialUpdate := true;
      totalItems := if model != null then model.numRows else 0;
      if |selected| > 0 && Sel.GetSelectedCol(selected, |selected| - 1) >= totalItems {
        selected := Sel.RemoveRange(selected, totalItems, IntMax);
        lastColSelected := Sel.GetSelectedCol(selected, 0);
        if model != null {
          log := log + [Sel.SelectedRowsChanged(lastColSelected)];
        }
      }
    }

    /** setModel: a different model is taken on and the content updated. */
    method SetModel(newModel: ListBoxModel?)
      requires Valid()
      modifies this`model, this`hasDoneInitialUpdate, this`totalItems, this`selected, this`lastColSelected, this`log,
               this`Repr, viewport.Repr
      ensures Valid() && fresh(Repr - old(Repr)) && model == newModel
      ensures newModel != old(model) ==>
                && totalItems == old(if newModel != null then newModel.numRows else 0)
                && State() == Sel.UpdateContentSelection(old(State()), totalItems, newModel != null)
      ensures newModel == old(model) ==> State() == old(State()) && totalItems == old(totalItems)
      ensures newModel == old(model) ==> hasDoneInitialUpdate == old(hasDoneInitialUpdate)
                                         && viewport.viewX == old(viewport.viewX)
    {
      if model != newModel {
        model := newModel;
        UpdateContent();
      }
    }

    /** setColWidth: the width is kept at least 1, then the content is updated. */
    method SetColWidth(newWidth: int)
      requires Valid()
      modifies this`colWidth, this`hasDoneInitialUpdate, this`totalItems, this`selected, this`lastColSelected, this`log,
               this`Repr, viewport.Repr
      ensures Valid() && fresh(Repr - old(Repr))
      ensures colWidth == Max(1, newWidth)
      ensures newWidth >= 1 ==> colWidth == newWidth
      ensures totalItems == old(if model != null then model.numRows else 0)
      ensures State() == Sel.UpdateContentSelection(old(State()), totalItems, model != null)
      ensures viewport.contentWidth == totalItems * colWidth
      ensures visible ==> viewport.Bound(AsOwner())
    {
      colWidth := Max(1, newWidth);
      UpdateContent();
    }

    /** setMinimumContentWidth: despite its name the value bounds the content's height
        from below. */
    method SetMinimumContentWidth(newMinimumWidth: int)
      requires Valid()
      modifies this`minimumColWidth, this`hasDoneInitialUpdate, this`totalItems, this`selected, this`lastColSelected, this`log,
               this`Repr, viewport.Repr
      ensures Valid() && fresh(Repr - old(Repr))
      ensures minimumColWidth == newMinimumWidth
      ensures totalItems == old(if model != null then model.numRows else 0)
      ensures State() == Sel.UpdateContentSelection(old(State()), totalItems, model != null)
      ensures viewport.contentHeight == Max(newMinimumWidth, viewport.bounds.visibleHeight)
      ensures viewport.contentWidth == totalItems * colWidth
    {
      minimumColWidth := newMinimumWidth;
      UpdateContent();
    }

    /** The toolkit gives the list box a size and the viewport its bounds (resized's
        setBoundsInset), then resized lets the viewport update its visible area without
        forcing a remap. */
    method Resized(newWidth: int, newHeight: int, viewBounds: ViewBounds)
      requires Valid() && viewBounds.visibleWidth >= 0
      modifies this`width, this`height, this`Repr, viewport.Repr
      ensures Valid() && fresh(Repr - old(Repr))
      ensures width == newWidth && height == newHeight && viewport.bounds == viewBounds
      ensures State() == old(State())
    {
      width, height := newWidth, newHeight;
      viewport.bounds := viewBounds;
      viewport.UpdateVisibleArea(AsOwner(), false);
      Repr := Repr + viewport.Repr;
    }

    /** visibilityChanged: the viewport updates its visible area and remaps. */
    method VisibilityChanged(nowVisible: bool)
      requires Valid()
      modifies this`visible, this`Repr, viewport.Repr
      ensures Valid() && fresh(Repr - old(Repr))
      ensures visible == nowVisible && State() == old(State())
      ensures viewport.Bound(AsOwner())
    {
      visible := nowVisible;
      viewport.UpdateVisibleArea(AsOwner(), true);
      Repr := Repr + viewport.Repr;
    }

    /** deselectAllCols */
    method DeselectAllCols()
      requires Valid()
      modifies this`selected, this`lastColSelected, this`log, this`Repr, viewport.Repr
      ensures Valid() && fresh(Repr - old(Repr))
      ensures State() == Sel.DeselectAllCols(old(State()), model != null)
      ensures old(selected) != {} ==> viewport.Bound(AsOwner())
    {
      if selected != {} {
        SetSelection({}, -1);
        RemapCells();
        if model != null {
          log := log + [Sel.SelectedRowsChanged(lastColSelected)];
        }
      }
    }

    /** The selection and the anchor take new values; nothing else changes. */
    method SetSelection(sel: set<int>, last: int)
      requires Valid()
      modifies this`selected, this`lastColSelected
      ensures Valid() && selected == sel && lastColSelected == last
    {
      selected, lastColSelected := sel, last;
    }

    /** viewport->updateContents() from the list box: the cells are remapped so that
        they show the current selection; the list box's own state is left as it is. */
    method RemapCells()
      requires Valid()
      modifies this`Repr, viewport.Repr
      ensures Valid() && fresh(Repr - old(Repr))
      ensures viewport.Bound(AsOwner())
    {
      viewport.UpdateContents(AsOwner());
      Repr := Repr + viewport.Repr;
    }

    /** selectColInternal. When it selects, the viewport scrolls as
        Layout.SelectColTarget says (never scrolling while the list box has no size), and
        whenever the selection changes the cells show it afterwards. */
    method SelectColInternal(col: int, dontScroll: bool, deselectOthersFirst: bool, isMouseClick: bool)
      requires Valid()
      modifies this`selected, this`lastColSelected, this`log, this`Repr, viewport.Repr
      ensures Valid() && fresh(Repr - old(Repr))
      ensures State() == Sel.SelectColInternal(old(State()), Flags(), totalItems, col, deselectOthersFirst)
      ensures Sel.Selects(old(State()), Flags(), totalItems, col, deselectOthersFirst) ==>
                viewport.viewX == MoveTo(old(viewport.viewX),
                                         SelectColTarget(col, colWidth, dontScroll || height == 0 || width == 0,
                                                         old(lastColSelected), totalItems, isMouseClick,
                                                         old(viewport.firstWholeIndex), old(viewport.lastWholeIndex),
                                                         viewport.bounds.visibleWidth),
                                         viewport.contentWidth, viewport.bounds.visibleWidth)
      ensures selected != old(selected) || Sel.Selects(old(State()), Flags(), totalItems, col, deselectOthersFirst)
              ==> viewport.Bound(AsOwner())
    {
      var dof := deselectOthersFirst || !multipleSelection;
      if col !in selected || (dof && |selected| > 1) {
        if IsPositiveAndBelow(col, totalItems) {
          SelectAndReveal(col, dontScroll, dof, isMouseClick);
        } else if dof {
          DeselectAllCols();
        }
      }
    }

    /** The branch of selectColInternal that selects an existing column: it is added
        (alone when others are deselected first), the viewport scrolls to it unless the
        list box has no size, it becomes the anchor and the model is told. */
    method SelectAndReveal(col: int, dontScroll: bool, deselectOthersFirst: bool, isMouseClick: bool)
      requires Valid() && 0 <= col < totalItems
      modifies this`selected, this`lastColSelected, this`log, this`Repr, viewport.Repr
      ensures Valid() && fresh(Repr - old(Repr))
      ensures selected == (if deselectOthersFirst then {} else old(selected)) + {col}
      ensures lastColSelected == col && log == old(log) + [Sel.SelectedRowsChanged(col)]
      ensures viewport.viewX == MoveTo(old(viewport.viewX),
                                       SelectColTarget(col, colWidth, dontScroll || height == 0 || width == 0,
                                                       old(lastColSelected), totalItems, isMouseClick,
                                                       old(viewport.firstWholeIndex), old(viewport.lastWholeIndex),
                                                       viewport.bounds.visibleWidth),
                                       viewport.contentWidth, viewport.bounds.visibleWidth)
      ensures viewport.Bound(AsOwner())
    {
      SetSelection((if deselectOthersFirst then {} else selected) + {col}, lastColSelected);
      var noScroll := dontScroll;
      if height == 0 || width == 0 {
        noScroll := true;
      }
      viewport.SelectCol(AsOwner(), col, colWidth, noScroll, lastColSelected, totalItems, isMouseClick);
      Repr := Repr + viewport.Repr;
      lastColSelected := col;
      log := log + [Sel.SelectedRowsChanged(col)];
    }

    /** selectColumn: selectColInternal for a call that is not a mouse click. */
    method SelectColumn(col: int, dontScroll: bool, deselectOthersFirst: bool)
      requires Valid()
      modifies this`selected, this`lastColSelected, this`log, this`Repr, viewport.Repr
      ensures Valid() && fresh(Repr - old(Repr))
      ensures State() == Sel.SelectColInternal(old(State()), Flags(), totalItems, col, deselectOthersFirst)
    {
      SelectColInternal(col, dontScroll, deselectOthersFirst, false);
    }

    /** deselectCol. The model is told unchecked, so it must be there when the column is
        selected. */
    method DeselectCol(col: int)
      requires Valid() && (model != null || col !in selected)
      modifies this`selected, this`lastColSelected, this`log, this`Repr, viewport.Repr
      ensures Valid() && fresh(Repr - old(Repr))
      ensures State() == Sel.DeselectCol(old(State()), col)
      ensures col in old(selected) ==> viewport.Bound(AsOwner())
    {
      if col in selected {
        var sel := Sel.RemoveRange(selected, col, col + 1);
        SetSelection(sel, if col == lastColSelected then Sel.GetSelectedCol(sel, 0) else lastColSelected);
        RemapCells();
        log := log + [Sel.SelectedRowsChanged(lastColSelected)];
      }
    }

    /** setSelectedCols */
    method SetSelectedCols(cols: set<int>, sendNotification: bool)
      requires Valid()
      modifies this`selected, this`lastColSelected, this`log, this`Repr, viewport.Repr
      ensures Valid() && fresh(Repr - old(Repr))
      ensures State() == Sel.SetSelectedCols(old(State()), totalItems, cols, sendNotification, model != null)
      ensures viewport.Bound(AsOwner())
    {
      var sel := Sel.RemoveRange(cols, totalItems, IntMax);
      SetSelection(sel, if lastColSelected in sel then lastColSelected else Sel.GetSelectedCol(sel, 0));
      RemapCells();
      if model != null && sendNotification {
        log := log + [Sel.SelectedRowsChanged(lastColSelected)];
      }
    }

    /** selectRangeOfCols */
    method SelectRangeOfCols(firstCol: int, lastCol: int, dontScrollToShowThisRange: bool)
      requires Valid()
      modifies this`selected, this`lastColSelected, this`log, this`Repr, viewport.Repr
      ensures Valid() && fresh(Repr - old(Repr))
      ensures State() == Sel.SelectRangeOfCols(old(State()), Flags(), totalItems, firstCol, lastCol)
    {
      ghost var mid := Sel.RangeAdded(State(), Flags(), totalItems, firstCol, lastCol);
      var last := lastCol;
      if multipleSelection && firstCol != lastCol {
        var numCols := totalItems - 1;
        var first := Limit(0, Max(0, numCols), firstCol);
        last := Limit(0, Max(0, numCols), lastCol);
        assert last == Sel.RangeEnd(Flags(), totalItems, firstCol, lastCol);
        SetSelection(Sel.AddRangeExceptEnd(selected, first, last), lastColSelected);
      }
      assert State() == mid;
      SelectColInternal(last, dontScrollToShowThisRange, false, true);
    }

    /** flipColSelection */
    method FlipColSelection(col: int)
      requires Valid() && (model != null || col !in selected)
      modifies this`selected, this`lastColSelected, this`log, this`Repr, viewport.Repr
      ensures Valid() && fresh(Repr - old(Repr))
      ensures State() == Sel.FlipColSelection(old(State()), Flags(), totalItems, col)
    {
      if col in selected {
        DeselectCol(col);
      } else {
        SelectColInternal(col, false, false, true);
      }
    }

    /** selectColsBasedOnModifierKeys */
    method SelectColsBasedOnModifierKeys(col: int, mods: Sel.ModifierKeys, isMouseUpEvent: bool)
      requires Valid() && (model != null || col !in selected)
      modifies this`selected, this`lastColSelected, this`log, this`Repr, viewport.Repr
      ensures Valid() && fresh(Repr - old(Repr))
      ensures State() == Sel.SelectColsBasedOnModifierKeys(old(State()), Flags(), totalItems, col, mods, isMouseUpEvent)
    {
      if multipleSelection && (mods.command || alwaysFlipSelection) {
        FlipColSelection(col);
      } else if multipleSelection && mods.shift && lastColSelected >= 0 {
        SelectRangeOfCols(lastColSelected, col, false);
      } else if !mods.popupMenu || col !in selected {
        SelectColInternal(col, false, !(multipleSelection && !isMouseUpEvent && col in selected), true);
      }
    }

    /** ColumnComponent::performSelection: the click policy for the cell's column, then
        listBoxItemClicked with the column the cell shows afterwards. */
    method PerformSelection(cell: ColumnComponent, mods: Sel.ModifierKeys, isMouseUp: bool)
      requires Valid() && (model != null || cell.col !in selected)
      modifies this`selected, this`lastColSelected, this`log, this`Repr, viewport.Repr
      ensures Valid() && fresh(Repr - old(Repr))
      ensures var s := Sel.SelectColsBasedOnModifierKeys(old(State()), Flags(), totalItems, old(cell.col), mods, isMouseUp);
              State() == Sel.SelState(s.selected, s.last, s.log + if model != null then [Sel.ItemClicked(cell.col)] else [])
    {
      SelectColsBasedOnModifierKeys(cell.col, mods, isMouseUp);
      if model != null {
        log := log + [Sel.ItemClicked(cell.col)];
      }
    }

    /** A mouse-down on one of the viewport's cells. */
    method CellMouseDown(cell: ColumnComponent, enabled: bool, inDragToScrollViewport: bool, mods: Sel.ModifierKeys)
      requires Valid() && cell in viewport.cols && (model != null || cell.col !in selected)
      modifies this`selected, this`lastColSelected, this`log, this`Repr, viewport.Repr
      ensures Valid() && fresh(Repr - old(Repr))
      ensures var d := MouseDownStep(enabled, selectOnMouseDown, old(cell.selected), inDragToScrollViewport);
              && (!d.selectNow ==> State() == old(State()) && cell.press == d.press)
              && (d.selectNow ==> State().selected == Sel.SelectColsBasedOnModifierKeys(old(State()), Flags(), totalItems,
                                                                                         old(cell.col), mods, false).selected)
    {
      var selectNow := cell.MouseDown(enabled, selectOnMouseDown, inDragToScrollViewport);
      if selectNow {
        PerformSelection(cell, mods, false);
      }
    }

    /** A mouse-up on one of the viewport's cells. */
    method CellMouseUp(cell: ColumnComponent, enabled: bool, mods: Sel.ModifierKeys)
      requires Valid() && cell in viewport.cols && (model != null || cell.col !in selected)
      modifies this`selected, this`lastColSelected, this`log, this`Repr, viewport.Repr
      ensures Valid() && fresh(Repr - old(Repr))
      ensures !MouseUpStep(old(cell.press), enabled) ==> State() == old(State())
      ensures MouseUpStep(old(cell.press), enabled) ==>
                State().selected == Sel.SelectColsBasedOnModifierKeys(old(State()), Flags(), totalItems,
                                                                      old(cell.col), mods, true).selected
    {
      var selectNow := cell.MouseUp(enabled);
      if selectNow {
        PerformSelection(cell, mods, true);
      }
    }

    /** scrollToEnsureColIsOnscreen */
    method ScrollToEnsureColIsOnscreen(col: int)
      requires Valid()
      modifies this`Repr, viewport.Repr
      ensures Valid() && fresh(Repr - old(Repr))
      ensures viewport.viewX == MoveTo(old(viewport.viewX),
                                       RevealTarget(col, colWidth, old(viewport.firstWholeIndex),
                                                    old(viewport.lastWholeIndex), viewport.bounds.visibleWidth),
                                       viewport.contentWidth, viewport.bounds.visibleWidth)
      ensures old(viewport.Bound(AsOwner())) && viewport.bounds.visibleWidth >= colWidth && 0 <= col < totalItems
              && old(viewport.viewX) <= Max(0, viewport.contentWidth - viewport.bounds.visibleWidth)
              ==> viewport.firstWholeIndex <= col <= viewport.lastWholeIndex
                  && viewport.viewX <= col * colWidth
                  && (col + 1) * colWidth <= viewport.viewX + viewport.bounds.visibleWidth
    {
      viewport.ScrollToEnsureColIsOnscreen(AsOwner(), col, colWidth);
      Repr := Repr + viewport.Repr;
    }

    /** keyPressed: the key map of Selection.KeyNavigation, carried out. The page size is
        the viewport's width over the column width. */
    method KeyPressed(key: Sel.KeyPress) returns (handled: bool)
      requires Valid()
      modifies this`selected, this`lastColSelected, this`log, this`Repr, viewport.Repr
      ensures Valid() && fresh(Repr - old(Repr))
      ensures var action := Sel.KeyNavigation(key, Flags(), old(selected), old(lastColSelected), totalItems,
                                              old(CDiv(viewport.bounds.width, colWidth)));
              && State() == Sel.ApplyKeyAction(old(State()), Flags(), totalItems, action, model != null)
              && (handled <==> !action.NotHandled?)
    {
      var numVisibleColumns := CDiv(viewport.bounds.width, colWidth);
      var action := Sel.KeyNavigation(key, Flags(), selected, lastColSelected, totalItems, numVisibleColumns);
      PerformKeyAction(action);
      handled := !action.NotHandled?;
    }

    /** What keyPressed does once the key is mapped: select a column (others deselected),
        select a range from the anchor, or tell the model about Return or Delete. */
    method PerformKeyAction(action: Sel.KeyAction)
      requires Valid()
      modifies this`selected, this`lastColSelected, this`log, this`Repr, viewport.Repr
      ensures Valid() && fresh(Repr - old(Repr))
      ensures State() == Sel.ApplyKeyAction(old(State()), Flags(), totalItems, action, model != null)
    {
      match action {
        case SelectColumnAction(c) =>
          SelectColumn(c, false, true);
        case SelectRangeAction(a, b) =>
          SelectRangeOfCols(a, b, false);
        case ReturnAction(c) =>
          if model != null {
            log := log + [Sel.ReturnKeyPressed(c)];
          }
        case DeleteAction(c) =>
          if model != null {
            log := log + [Sel.DeleteKeyPressed(c)];
          }
        case NotHandled =>
      }
    }

    /** getColContainingPosition (x, y), in the list box's coordinates. As written it
        only answers for y past the list box's height, and with C++ division a point
        less than one column left of the content's start still lands in column 0. */
    function GetColContainingPosition(x: int, y: int): (r: int)
      reads this, viewport
      requires colWidth > 0
      ensures r != -1 ==> 0 <= height < y && 0 <= r < totalItems
      ensures var p := viewport.viewX + x - viewport.bounds.x;
              r != -1 ==> (r * colWidth <= p < r * colWidth + colWidth) || (r == 0 && -colWidth < p < 0)
      ensures var p := viewport.viewX + x - viewport.bounds.x;
              0 <= height < y && 0 <= p < totalItems * colWidth ==> r != -1
    {
      if IsPositiveAndBelow(height, y) then
        var col := CDiv(viewport.viewX + x - viewport.bounds.x, colWidth);
        if IsPositiveAndBelow(col, totalItems) then col else -1
      else -1
    }

    /** getInsertionIndexForPosition (x, y): -1 for an x outside the list box, else an
        index in [0, totalItems], computed (as written) from the view's vertical
        position and y. */
    function GetInsertionIndexForPosition(x: int, y: int): (r: int)
      reads this, viewport
      requires colWidth > 0 && totalItems >= 0
      ensures r == -1 <==> !IsPositiveAndBelow(x, width)
      ensures r != -1 ==> 0 <= r <= totalItems
    {
      if IsPositiveAndBelow(x, width) then
        Limit(0, totalItems, CDiv(viewport.viewY + y + CDiv(colWidth, 2) - viewport.bounds.y, colWidth))
      else -1
    }

    /** getColPosition: the rectangle a column occupies, in the list box's coordinates
        when relativeToComponentTopLeft, else in the content's coordinates offset by the
        viewport's position. */
    function GetColPosition(col: int, relativeToComponentTopLeft: bool): (r: Rect)
      reads this, viewport
      ensures r.w == colWidth && r.h == viewport.contentHeight && r.y == viewport.bounds.y
      ensures relativeToComponentTopLeft ==> r.x == GetColPosition(col, false).x - viewport.viewX
    {
      var x := viewport.bounds.x + colWidth * col;
      Rect(if relativeToComponentTopLeft then x - viewport.viewX else x, viewport.bounds.y,
           colWidth, viewport.contentHeight)
    }

    /** getNumColsOnScreen: how many whole columns fit in the visible width. The pool
        holds two cells more than this. */
    function GetNumColsOnScreen(): (r: int)
      reads this, viewport
      requires colWidth > 0 && viewport.bounds.visibleWidth >= 0
      ensures r >= 0 && r * colWidth <= viewport.bounds.visibleWidth < r * colWidth + colWidth
      ensures r + 2 == PoolSize(viewport.bounds.visibleWidth, colWidth)
    {
      CDiv(viewport.bounds.visibleWidth, colWidth)
    }

    /** Any pixel of a column's rectangle (with a y past the list box's height) maps back
        to that column. */
    lemma ColPositionRoundTrip(col: int, dx: int, y: int)
      requires colWidth > 0 && 0 <= col < totalItems && 0 <= dx < colWidth && 0 <= height < y
      ensures GetColContainingPosition(GetColPosition(col, true).x + dx, y) == col
    {
      var p := viewport.viewX + (GetColPosition(col, true).x + dx) - viewport.bounds.x;
      assert p == col * colWidth + dx;
      ColumnOfPixel(col, colWidth, dx);
    }

    /** After a remap, the cell showing a column of the window sits exactly where
        getColPosition puts that column (in content coordinates, less the viewport's
        offset). */
    lemma CellAtColPosition(col: int)
      requires Valid() && viewport.Bound(AsOwner())
      requires viewport.firstIndex <= col < viewport.firstIndex + |viewport.cols|
      ensures var c := viewport.GetComponentForColIfOnscreen(col);
              var r := GetColPosition(col, false);
              c != null && r.x == viewport.bounds.x + c.boundsX && r.w == c.boundsWidth && r.h == c.boundsHeight
    {
      viewport.WindowShown(AsOwner(), col);
    }
  }
}
