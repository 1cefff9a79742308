# HorizontalListBox in Dafny

This project models the core of a JUCE component. `HorizontalListBox` is a list box
laid out sideways: each row of its data model is drawn as a column of fixed width, and
the columns scroll horizontally. The model has three cooperating parts.

- **The selection state machine** of `HorizontalListBox`:
  - the set of selected columns and the anchor `lastColSelected` (-1 for none);
  - the flags `multipleSelection`, `alwaysFlipSelection` and `selectOnMouseDown`;
  - the operations that select, deselect, flip, select a range, replace the selection,
    and drop columns that no longer exist when the row count shrinks;
  - the click policy `selectColsBasedOnModifierKeys` and the keyboard map of
    `keyPressed`.
- **The recycling viewport** `ListViewport`:
  - it shows the columns through a pool of `2 + visibleWidth / colWidth` cells;
  - it binds column `c` to slot `c % poolSize` for the window
    `[firstIndex, firstIndex + poolSize)`;
  - it answers the inverse lookups;
  - it sizes its content;
  - it scrolls a column into view, including the page jump for keyboard selection.
- **The cell** `ColumnComponent`: it shows a column and its selection state, and it runs
  the press/release/drag state machine that decides when a click selects.

Besides these, `CustomViewport` is a separate viewport. It snaps its scroll position to
the nearest boundary between `numOfItems` equally wide features, and it scrolls a
rectangle into view.

Modules, one per file:

| file | module | contents |
|---|---|---|
| `juce.dfy` | `Juce` | C++ truncating division, `jmax`/`jmin`/`jlimit`/`isPositiveAndBelow`, `Rectangle`, and the two JUCE behaviours assumed here (the viewport's clamp of its view position and `Rectangle::constrainedWithin`) |
| `layout.dfy` | `Layout` | the viewport's integer geometry: pool size, cached indices, slot mapping, reveal and page-jump targets |
| `selection.dfy` | `Selection` | the selection state as a value (`SelState`), one function per operation, and the properties the header promises |
| `cells.dfy` | `Cells` | the press/drag transitions and the `ColumnComponent` class |
| `viewport.dfy` | `ListViewports` | the `ListViewport` class over its pool of cells |
| `listbox.dfy` | `ListBox` | the `HorizontalListBox` class |
| `snap.dfy` | `Snapping` | the snap rule and the `CustomViewport` class |

## How the parts fit

- **State-changing code is imperative.** The list box, the viewport, the cells and
  `CustomViewport` are classes whose methods update their fields.
- **Each selection method is tied to a specification function.** Its `ensures` says that
  the new `(selected, lastColSelected, log)` equals the function of the same name in
  `Selection`, applied to the old state. The lemmas in `Selection` then state what the
  header documents about that function.
- **Model notifications are a log.** `selectedRowsChanged`, `returnKeyPressed`,
  `deleteKeyPressed` and `listBoxItemClicked` are appended to the ghost sequence `log`.
- **The viewport's cached state is described by `Bound`.** After every remap, the
  predicate `ListViewport.Bound` holds:
  - the pool has the right size;
  - the cached indices match the view position;
  - every slot shows the one column of the window whose slot it is, with that column's
    selection state and bounds.
- **`CustomViewport` splits the same way.** Its methods are tied to the pure functions
  `Snap`/`SnapPass` and `ScrollTarget`, whose properties are proved as lemmas.

## Model

| member | source | states |
|---|---|---|
| Juce.CDiv | Source/HorizonalListBox.cpp:203-205 | C++ `/` by a positive divisor truncates toward zero: for a non-negative dividend the quotient is the floor, for a negative one the ceiling |
| Juce.Limit | Source/HorizonalListBox.cpp:470-471 | `jlimit` returns the value itself when it lies in the range, the lower bound below it and the upper bound above it |
| Juce.ViewClamp | Source/CustomViewport.h:36 | the position `setViewPosition` reaches (assumed JUCE behaviour) lies in `[0, max(0, content - view)]`, is the request when that is reachable, and is 0 for a request at or left of 0 |
| Juce.Rect.Expanded | Source/CustomViewport.h:43 | `expanded` moves the origin out by the margins |
| Juce.Rect.ConstrainedWithin | Source/CustomViewport.h:45 | `constrainedWithin` (assumed JUCE behaviour) leaves a rectangle already inside the area alone and puts any rectangle that fits inside it |
| Layout.PoolSize | Source/HorizonalListBox.cpp:194 | the pool has two cells more than the number of whole columns that fit in the visible width |
| Layout.FirstIndex | Source/HorizonalListBox.cpp:203 | `firstIndex` is the column under the view's left edge |
| Layout.FirstWholeIndex | Source/HorizonalListBox.cpp:204 | `firstWholeIndex` is the first column starting at or right of the left edge |
| Layout.LastWholeIndex | Source/HorizonalListBox.cpp:205 | `lastWholeIndex`, as written, is the column under the view's last pixel, the last one at least partly visible |
| Layout.SlotOf | Source/HorizonalListBox.cpp:140-142 | the slot of a non-negative column lies inside the pool; a negative column gets a slot at or below 0 (C++ remainder) |
| Layout.SlotOfWindowCol | Source/HorizonalListBox.cpp:207-213 | binding column `first + i` sends it to a slot in the pool that maps back to that same column |
| Layout.ColOfSlotInWindow | Source/HorizonalListBox.cpp:149-158 | every slot holds a column of the window, and that column's slot is the slot itself (the lookup and its inverse agree) |
| Layout.SlotsHoldDistinctCols | Source/HorizonalListBox.cpp:207-213 | no two slots of a bound pool hold the same column |
| Layout.PoolCoversView | Source/HorizonalListBox.cpp:194-205 | the window `[firstIndex, firstIndex + poolSize)` contains every column that is at least partly visible |
| Layout.ColumnOfPixel | Source/HorizonalListBox.cpp:534 | every pixel of a column's span divides back to that column |
| Layout.RevealConverges | Source/HorizonalListBox.cpp:249-256 | revealing an existing column (view at least one column wide, position in range) reaches the unclamped target, and afterwards the column lies between `firstWholeIndex` and `lastWholeIndex` |
| Layout.RevealWhollyVisible | Source/HorizonalListBox.cpp:249-256 | after revealing an existing column (view at least one column wide, position in range) the column is wholly on screen: `x <= col * colW` and `(col + 1) * colW <= x + visibleWidth` |
| Layout.RevealToLeftEdge | Source/HorizonalListBox.cpp:250-251 | a column left of `firstWholeIndex` ends aligned to the left edge, at `col * colW` |
| Layout.RevealToRightEdge | Source/HorizonalListBox.cpp:252-254 | a column at or past `lastWholeIndex` ends aligned to the right edge, at `max(0, (col + 1) * colW - visibleWidth)` |
| Layout.WholeIndicesAtLeftEdge | Source/HorizonalListBox.cpp:204-205 | with the view at `col * colW`, `col` is the first whole column and at most the last |
| Layout.WholeIndicesAtRightEdge | Source/HorizonalListBox.cpp:204-205 | with the view right-aligned on `col`, `col` lies between the first and last whole columns |
| Layout.ClickSelectionReveals | Source/HorizonalListBox.cpp:229-242 | a mouse-click selection never takes the page jump: it scrolls exactly as `scrollToEnsureColIsOnscreen` does, or not at all when asked not to |
| Layout.PageJumpTarget | Source/HorizonalListBox.cpp:234-238 | the page jump lands on a column boundary within `[0, (totalCols - colsOnScreen) * colW]`, on the selected column itself when that is not in the last screenful |
| Layout.EndClamp | Source/HorizonalListBox.cpp:176-177 | `updateVisibleArea` only ever moves the view left, to at most `content - visible` when the content is wider than the view, and leaves a position that does not overshoot alone |
| Selection.Span | Source/HorizonalListBox.cpp:473-474 | `addRange` with a half-open range adds exactly the columns `lo <= c < hi` |
| Selection.RemoveRangeIsSpanDifference | Source/HorizonalListBox.cpp:473-476 | `removeRange` takes out exactly the span `addRange` puts in: the result is `s - Span(lo, hi)` |
| Selection.AddRangeExceptEnd | Source/HorizonalListBox.cpp:473-476 | after adding the inclusive span and removing its end, the set holds the old columns and the span, except the end |
| Selection.Ascending | Source/HorizontalListBox.h:152-153 | the selection in strictly ascending order, with the same members |
| Selection.LastColumnSelected | Source/HorizonalListBox.cpp:527-529 | `getLastColumnSelected` is the anchor when it is still selected, and -1 otherwise, in particular when nothing is selected |
| Selection.GetSelectedCol | Source/HorizonalListBox.cpp:518-521 | `getSelectedCol(i)` is a selected column for `0 <= i < size`, and -1 otherwise (an empty selection included) |
| Selection.SelectedColIsAscending | Source/HorizontalListBox.h:150-160 | `getSelectedCol(i)` is the `i`-th element of the ascending order |
| Selection.SelectedColRank | Source/HorizontalListBox.h:150-160 | exactly `i` selected columns lie below `getSelectedCol(i)`, and later indices give larger columns |
| Selection.Initial | Source/HorizontalListBox.h:426-429 | the default state (nothing selected, anchor -1) satisfies the selection invariant |
| Selection.SelectColumnOutcome | Source/HorizonalListBox.cpp:407-435 | an existing column ends up selected, alone when others are deselected first (forced without multiple selection); when picked it becomes the anchor and the model is told. A missing column clears the selection only with `deselectOthersFirst`. An already selected column changes nothing unless it collapses a multi-selection. The invariant is kept |
| Selection.AnchorIsMostRecent | Source/HorizontalListBox.h:162-169 | selecting 10, 5, then 6 leaves 6 as the last column selected, not the highest |
| Selection.DeselectColOutcome | Source/HorizonalListBox.cpp:437-447 | `deselectCol` removes exactly that column. If it was the anchor, the anchor becomes the lowest remaining column, or -1. An unselected column changes nothing. The invariant is kept |
| Selection.FlipOutcome | Source/HorizonalListBox.cpp:482-487 | with multiple selection, flipping inverts the column's membership and touches nothing else; a newly selected column becomes the anchor |
| Selection.FlipTwice | Source/HorizontalListBox.h:121-124 | flipping a column twice restores the selection (multiple selection on) |
| Selection.FlipWithoutMultipleSelection | Source/HorizonalListBox.cpp:482-487 | without multiple selection, flipping an unselected column selects it alone |
| Selection.SelectRangeOutcome | Source/HorizonalListBox.cpp:467-480 | with multiple selection and different ends, both ends are limited to `[0, total - 1]`, the whole inclusive span is added (nothing removed), the anchor moves to the limited last end and the model is told once |
| Selection.RangeThenShiftHome | Source/HorizonalListBox.cpp:467-480 | range `(2, 6)` then range `(6, 0)` selects columns 0 to 6 with anchor 0 |
| Selection.RangeKeepsInvariant | Source/HorizonalListBox.cpp:467-480 | `selectRangeOfCols` keeps the invariant for any ends and flags |
| Selection.SetSelectedColsOutcome | Source/HorizonalListBox.cpp:449-461 | with existing columns, `setSelectedCols` makes exactly them the selection; the anchor stays if still selected, else becomes the lowest |
| Selection.SetSelectedColsKeepsIntMax | Source/HorizonalListBox.cpp:452 | the range removed stops short of `INT_MAX`, so a selected `INT_MAX` survives |
| Selection.UpdateContentOutcome | Source/HorizonalListBox.cpp:389-393 | with a new row count, exactly the columns below it remain; if any was dropped the anchor becomes the lowest remaining column, or -1 |
| Selection.HighestSelected | Source/HorizonalListBox.cpp:389 | `selected[size - 1]` is the highest selected column |
| Selection.ShrinkExample | Source/HorizonalListBox.cpp:389-393 | selection `{3, 4, 9}` with anchor 9 cut to 5 rows leaves `{3, 4}` with anchor 3 |
| Selection.PlainClickSelectsOnlyColumn | Source/HorizonalListBox.cpp:508-510 | a click with no modifiers selects the clicked column alone and makes it the anchor, except a multi-selection mouse-down on a selected column |
| Selection.MouseDownOnSelectionKeepsIt | Source/HorizonalListBox.cpp:509-510 | with multiple selection, a plain mouse-down on a selected column leaves the selection unchanged |
| Selection.CommandClickFlips | Source/HorizonalListBox.cpp:504-505 | with multiple selection, a command click (or any click in flip mode) inverts the clicked column only |
| Selection.ShiftClickExtends | Source/HorizonalListBox.cpp:506-507 | with multiple selection, a shift click adds the span from the anchor to the clicked column and moves the anchor there |
| Selection.PopupClickOnSelectionKeepsIt | Source/HorizonalListBox.cpp:508 | a popup-menu click on a selected column changes nothing |
| Selection.FlipModeNeedsMultipleSelection | Source/HorizontalListBox.h:56-63 | flip-on-click mode has no effect on the selection without multiple selection |
| Selection.ClickKeepsInvariant | Source/HorizonalListBox.cpp:501-512 | every click keeps the invariant |
| Selection.NavigationSelectsOneColumn | Source/HorizonalListBox.cpp:600-629 | without the range modifier, a navigation key selects one existing column alone and makes it the anchor. Home gives 0, End the last column, Down and Up the anchor's neighbours, PageDown and PageUp a page away. With no rows the selection is cleared |
| Selection.ShiftNavigationExtends | Source/HorizonalListBox.cpp:596-627 | with multiple selection, an anchor and shift, a navigation key adds the span from the anchor to its limited target and moves the anchor there |
| Selection.SelectAllKey | Source/HorizonalListBox.cpp:637-638 | command+A with multiple selection selects every column, with the last one as anchor |
| Selection.ActionKeysNotifyModel | Source/HorizonalListBox.cpp:630-636 | Return and Delete/Backspace are handled exactly when the anchor is selected; they tell the model and leave the selection as it is |
| Selection.KeyKeepsInvariant | Source/HorizonalListBox.cpp:593-644 | every key keeps the invariant |
| Cells.ColsToDrag | Source/HorizonalListBox.cpp:86-89 | a drag carries the whole selection when the list box selects on mouse-down or the cell's column is selected, and otherwise (a press on an unselected column, selected on mouse-up) the cell's column alone |
| Cells.ClickSelectsOnce | Source/HorizonalListBox.cpp:57-73 | a press and release on an enabled cell with no drag selects exactly once, on the way down or on the way up; a disabled cell selects never |
| Cells.SelectedCellDefers | Source/HorizonalListBox.cpp:63-66 | a press on a selected column never selects on the way down and defers to the mouse-up |
| Cells.DragCancelsDeferredSelection | Source/HorizonalListBox.cpp:71 | once a press has become a drag or a scroll-on-drag, later drag events keep it so and the mouse-up selects nothing |
| Cells.DragStartsOnce | Source/HorizonalListBox.cpp:83 | a press that is already dragging never starts a second drag-and-drop |
| Cells.ColumnComponent.constructor | Source/HorizonalListBox.cpp:122-123 | a new cell shows column -1, unselected, with all press flags clear |
| Cells.ColumnComponent.Update | Source/HorizonalListBox.cpp:24-29 | `update` binds the cell to the column and selection state, and repaints exactly when either changes |
| Cells.ColumnComponent.SetBounds | Source/HorizonalListBox.cpp:211 | the cell is laid out at the given left edge, width and height |
| Cells.ColumnComponent.MouseDown | Source/HorizonalListBox.cpp:57-68 | `mouseDown` resets the press and selects or defers as `MouseDownStep` says |
| Cells.ColumnComponent.MouseUp | Source/HorizonalListBox.cpp:70-73 | `mouseUp` selects only when enabled, deferred and not dragging |
| Cells.ColumnComponent.MouseDrag | Source/HorizonalListBox.cpp:81-106 | `mouseDrag` starts a drag at most once per press, carrying a non-empty `ColsToDrag`, and records a scroll-on-drag |
| ListViewports.IndexOf | Source/HorizonalListBox.cpp:150 | a cell's index among the pool's cells, or -1 exactly when it is not one of them |
| ListViewports.ListViewport.constructor | Source/HorizonalListBox.cpp:280-281 | a new viewport has an empty pool and zero indices |
| ListViewports.ListViewport.GetComponentForCol | Source/HorizonalListBox.cpp:140-142 | a non-negative column of a non-empty pool always gets one of the pool's cells |
| ListViewports.ListViewport.GetComponentForColIfOnscreen | Source/HorizonalListBox.cpp:144-147 | a cell comes back exactly for a column of the window |
| ListViewports.ListViewport.GetColNumberOfComponent | Source/HorizonalListBox.cpp:149-158 | a pool cell gets back the window column whose cell it is (the inverse of the lookup); anything else gets -1 |
| ListViewports.ListViewport.UpdateContents | Source/HorizonalListBox.cpp:185-215 | a remap leaves the pool at `2 + visibleWidth / colW` cells whatever the row count, caches the three indices for the view position, and binds every slot to its column of the window |
| ListViewports.ListViewport.ResizePool | Source/HorizonalListBox.cpp:194-201 | the pool is cut to `numNeeded` cells or grown by fresh cells at its end, keeping the cells it had |
| ListViewports.ListViewport.BindSlots | Source/HorizonalListBox.cpp:207-214 | after the loop every slot shows its column of the window, with that column's selection state and bounds |
| ListViewports.ListViewport.UpdateVisibleArea | Source/HorizonalListBox.cpp:167-183 | the content is `totalItems * colW` wide and `max(minimumColWidth, visibleHeight)` high, a view past the content's end is pulled back, and the pool is remapped when asked to or when the view moved |
| ListViewports.ListViewport.VisibleAreaChanged | Source/HorizonalListBox.cpp:160-165 | a change of visible area always ends remapped |
| ListViewports.ListViewport.SetViewPosition | Source/HorizonalListBox.cpp:251 | the view reaches the clamped position, and the viewport remaps exactly when it moved |
| ListViewports.ListViewport.SelectCol | Source/HorizonalListBox.cpp:225-247 | the view moves as `SelectColTarget` says (left-align, page jump, or right-align), and the pool ends remapped either way |
| ListViewports.ListViewport.ScrollToEnsureColIsOnscreen | Source/HorizonalListBox.cpp:249-256 | the view moves as `RevealTarget` says, and from a remapped state (view at least one column wide, position in range) an existing column ends wholly on screen, hence between `firstWholeIndex` and `lastWholeIndex` |
| ListViewports.ListViewport.WindowShown | Source/HorizonalListBox.cpp:203-214 | after a remap every column of the window is shown by the cell the lookup finds, with its selection state |
| ListViewports.ListViewport.VisibleColumnShown | Source/HorizonalListBox.cpp:194-214 | after a remap every partly visible column has a cell showing it |
| ListViewports.ListViewport.CellsShowDistinctColumns | Source/HorizonalListBox.cpp:207-214 | after a remap no two cells show the same column |
| ListBox.HorizontalListBox.constructor | Source/HorizontalListBox.h:427-430 | defaults: column width 22, no rows, no anchor, single selection, selection on mouse-down |
| ListBox.HorizontalListBox.SetMultipleSelectionEnabled | Source/HorizonalListBox.cpp:333 | sets the flag; it may change no other field |
| ListBox.HorizontalListBox.SetClickingTogglesColumnSelection | Source/HorizonalListBox.cpp:335 | sets the flag; it may change no other field |
| ListBox.HorizontalListBox.SetColumnSelectedOnMouseDown | Source/HorizonalListBox.cpp:337 | sets the flag; it may change no other field |
| ListBox.HorizontalListBox.UpdateContent | Source/HorizonalListBox.cpp:383-400 | the row count is re-read (0 without a model), the selection shrinks as `UpdateContentSelection` says, the content is resized, and the pool is remapped when visible |
| ListBox.HorizontalListBox.ReloadRows | Source/HorizonalListBox.cpp:384-393 | the row count and selection part of `updateContent` |
| ListBox.HorizontalListBox.SetModel | Source/HorizonalListBox.cpp:325-331 | a different model is taken on and the content updated: the row count becomes the new model's and the selection shrinks as `UpdateContentSelection` says; the same model leaves the selection, the row count, the initial-update flag and the view position as they were |
| ListBox.HorizontalListBox.SetColWidth | Source/HorizonalListBox.cpp:680-684 | the column width becomes `max(1, newWidth)`; the row count is re-read, the selection shrinks as `UpdateContentSelection` says, and the content becomes `totalItems * colWidth` wide |
| ListBox.HorizontalListBox.SetMinimumContentWidth | Source/HorizonalListBox.cpp:690-693 | the value bounds the content's height from below; the row count is re-read, the selection shrinks as `UpdateContentSelection` says, and the content stays `totalItems * colWidth` wide |
| ListBox.HorizontalListBox.Resized | Source/HorizonalListBox.cpp:363-372 | the new bounds are taken on without touching the selection; besides the size fields only the viewport (and the footprint `Repr`) may change |
| ListBox.HorizontalListBox.VisibilityChanged | Source/HorizonalListBox.cpp:374-376 | the visibility flag is taken on, the selection is unchanged, and the viewport updates and remaps |
| ListBox.HorizontalListBox.DeselectAllCols | Source/HorizonalListBox.cpp:489-499 | the state becomes `Selection.DeselectAllCols` of the old one, and the cells are remapped when something was selected |
| ListBox.HorizontalListBox.SelectColInternal | Source/HorizonalListBox.cpp:407-435 | the state follows `Selection.SelectColInternal`; when it selects, the view moves as `selectCol` says (no scroll while the list box has no size), and the cells are remapped |
| ListBox.HorizontalListBox.SelectAndReveal | Source/HorizonalListBox.cpp:416-429 | the column is added (alone when others are deselected first), the view scrolls, the column becomes the anchor and the model is told |
| ListBox.HorizontalListBox.SelectColumn | Source/HorizonalListBox.cpp:403-405 | `selectColumn` is `selectColInternal` for a non-click |
| ListBox.HorizontalListBox.DeselectCol | Source/HorizonalListBox.cpp:437-447 | the state follows `Selection.DeselectCol`, and the cells are remapped when the column was selected |
| ListBox.HorizontalListBox.SetSelectedCols | Source/HorizonalListBox.cpp:449-461 | the state follows `Selection.SetSelectedCols`, and the cells are remapped |
| ListBox.HorizontalListBox.SelectRangeOfCols | Source/HorizonalListBox.cpp:467-480 | the state follows `Selection.SelectRangeOfCols` |
| ListBox.HorizontalListBox.FlipColSelection | Source/HorizonalListBox.cpp:482-487 | the state follows `Selection.FlipColSelection` |
| ListBox.HorizontalListBox.SelectColsBasedOnModifierKeys | Source/HorizonalListBox.cpp:501-512 | the state follows the click policy `Selection.SelectColsBasedOnModifierKeys` |
| ListBox.HorizontalListBox.PerformSelection | Source/HorizonalListBox.cpp:43-48 | the click policy runs for the cell's column, then the model hears that the item was clicked |
| ListBox.HorizontalListBox.CellMouseDown | Source/HorizonalListBox.cpp:57-68 | a mouse-down either selects through the click policy or leaves the selection alone and arms the deferred selection |
| ListBox.HorizontalListBox.CellMouseUp | Source/HorizonalListBox.cpp:70-73 | a mouse-up selects through the click policy exactly when `MouseUpStep` allows it |
| ListBox.HorizontalListBox.ScrollToEnsureColIsOnscreen | Source/HorizonalListBox.cpp:588-590 | the view moves as `RevealTarget` says, and from a remapped state (view at least one column wide, position in range) an existing column ends wholly on screen: it starts at or after the view's left edge and ends at or before its right edge |
| ListBox.HorizontalListBox.KeyPressed | Source/HorizonalListBox.cpp:593-644 | the state follows `KeyNavigation` with page size `viewport width / colWidth`, and the key counts as handled exactly when it maps to an action |
| ListBox.HorizontalListBox.PerformKeyAction | Source/HorizonalListBox.cpp:600-641 | the mapped action is carried out as `ApplyKeyAction` says |
| ListBox.HorizontalListBox.GetColContainingPosition | Source/HorizonalListBox.cpp:532-541 | an answer other than -1 is an existing column whose span holds the content position (as written, only for `0 <= height < y`); every position over the content gets an answer |
| ListBox.HorizontalListBox.GetInsertionIndexForPosition | Source/HorizonalListBox.cpp:543-548 | -1 exactly for an x outside the list box, else an index in `[0, totalItems]` |
| ListBox.HorizontalListBox.GetColPosition | Source/HorizonalListBox.cpp:561-569 | a column's rectangle is one column wide and content high, and relative to the top-left it is shifted by the view position |
| ListBox.HorizontalListBox.GetNumColsOnScreen | Source/HorizonalListBox.cpp:686-688 | the number of whole columns that fit the visible width, two less than the pool size |
| ListBox.HorizontalListBox.ColPositionRoundTrip | Source/HorizonalListBox.cpp:532-569 | every pixel of `getColPosition(col)` maps back to `col` under `getColContainingPosition` |
| ListBox.HorizontalListBox.CellAtColPosition | Source/HorizonalListBox.cpp:561-569 | after a remap the cell showing a column sits where `getColPosition` puts that column |
| Snapping.FeatureWidth | Source/CustomViewport.h:26-29 | the feature width is at least 1 and the truncated share of the width |
| Snapping.SnapIsMultiple | Source/CustomViewport.h:31-32 | the snapped position is a multiple of the feature width |
| Snapping.SnapIsClose | Source/CustomViewport.h:31-32 | for `scrollX >= 0`, the snapped position is within half a feature of it (at most `fw/2` above) |
| Snapping.SnapIsNearest | Source/CustomViewport.h:31-32 | for `scrollX >= 0` no boundary is nearer, and ties round up |
| Snapping.SnapKeepsBoundaries | Source/CustomViewport.h:31-32 | a position already on a boundary is left unchanged |
| Snapping.SnapIdempotent | Source/CustomViewport.h:31-32 | snapping twice is snapping once |
| Snapping.SnapMonotone | Source/CustomViewport.h:31-32 | a larger `scrollX` never snaps to a smaller position |
| Snapping.SnapPassLandsOnBoundary | Source/CustomViewport.h:31-36 | after a pass the view rests on a boundary or at the content's end |
| Snapping.SnapPassKeepsBoundary | Source/CustomViewport.h:31-36 | a reachable boundary is a resting point of a pass |
| Snapping.SnapPassSettles | Source/CustomViewport.h:19-36 | the re-entrant passes settle: the third pass changes nothing |
| Snapping.ScrollTargetKeepsVisible | Source/CustomViewport.h:42-47 | a rectangle whose margins are already in view asks for no move |
| Snapping.ScrollTargetReveals | Source/CustomViewport.h:42-47 | at the target position, a rectangle that fits is in view |
| Snapping.CustomViewport.constructor | Source/CustomViewport.h:17 | `numOfItems` defaults to 2 |
| Snapping.CustomViewport.SetViewPosition | Source/CustomViewport.h:36 | the view reaches the clamped position |
| Snapping.CustomViewport.VisibleAreaChanged | Source/CustomViewport.h:19-38 | nothing moves during a drag-scroll; otherwise the view goes to the snapped and clamped position, at the top |
| Snapping.CustomViewport.ScrollRectIntoView | Source/CustomViewport.h:40-48 | the view moves by `constrainedWithin`'s offset, not at all when the margin rectangle is already in view, and afterwards holds the rectangle when it fits and the edge does not stop the view |

## Notes on the code

- **`lastWholeIndex`** is `(x + visibleWidth - 1) / colW`: the last column that is at
  least partly visible, not only the last whole one.
- **Content extent.** The content is exactly `totalItems * colWidth` wide; it is not
  padded up to the visible width. `minimumColWidth` (`setMinimumContentWidth`) bounds
  the content's height, not its width.
- **Mouse clicks and scrolling.** Mouse clicks do scroll to reveal the selected column:
  `selectColsBasedOnModifierKeys` passes `dontScroll = false`. A click only skips the
  page-jump branch of `selectCol`.
- **Keyboard scrolling.** Keyboard selection that lands a screenful or more past the
  anchor takes the page-jump branch, not the left/right reveal.
- **Slot binding.** A column is shown by slot `column % poolSize` of the cell pool.
- **Cell height.** Cells are laid out with the content's height, not the visible height.

## Left out

- **Drawing:** painting and colours (`paint`, `paintOverChildren`, `colourChanged`,
  `parentHierarchyChanged`, `ListViewport::paint`).
- **Drag image and drag start:** `createSnapshotOfCols` and `startDragAndDrop`.
  `Cells.ColumnComponent.MouseDrag` returns the columns it would drag instead.
- **`setHorizontalPosition` / `getHorizontalPosition`:** they work in floating point.
- **Event plumbing into the JUCE toolkit, which is not part of this model:**
  `mouseWheelMove`, `keyStateChanged`, `ListBoxMouseMoveSelector` /
  `setMouseMoveSelectsColumns`, `ListViewport::keyPressed`, `mouseDoubleClick`,
  `HorizontalListBox::mouseUp` (`backgroundClicked`) and `getTooltip`.
- **Component-tree calls:** the custom-component handling in `ColumnComponent::update`,
  `getComponentForColNumber`, the header component and its bounds (cpp:217-222),
  `setBoundsInset`, `setSingleStepSizes`, `ListViewport::resized`, and the mouse cursor.
  Repaint requests are counted rather than performed.
- **Other model callbacks:** `listWasScrolled` is not recorded.
- **Toolkit inputs are parameters:** `isEnabled`, `isInDragToScrollViewport`,
  `isCurrentlyScrollingOnDrag`, `isVisible`, the component's size and the viewport's
  bounds are passed in or held in fields set by `Resized`.
- **The data model is reduced to its row count.** Source/TestListBoxModel.h,
  Source/MainComponent.cpp, Source/MainComponent.h and Source/TestComp.h are not part of
  this model.
- **JUCE internals are assumptions.** `Viewport::setViewPosition` and
  `Rectangle::constrainedWithin` are assumed to behave as `Juce.ViewClamp` and
  `Juce.Rect.ConstrainedWithin` say. Moving or resizing the content component
  (`setBounds` in `updateVisibleArea`) is assumed to call `visibleAreaChanged` back
  exactly when the content's x position changes, and never for a change of size alone. `SparseSet<int>` is modelled as a set.
- **C++ `int` overflow is not modelled.** Integers are unbounded, e.g.
  `totalItems * colWidth`, and the `INT_MAX` end of command+A before it is limited.
- **The null model.** `selectColInternal` and `deselectCol` call the model without a
  null check.
  - `ListBox.HorizontalListBox.DeselectCol`, `FlipColSelection`,
    `SelectColsBasedOnModifierKeys` and the cell methods require a model whenever the
    column is selected.
  - Without a model there are no rows, so `selectColInternal` never reaches its
    notification.
- **Notification order in `updateContent`.** The source tells the model after the
  viewport's update. `ListBox.HorizontalListBox.ReloadRows` records it before, and
  nothing modelled observes the difference.
- **Re-entrant callbacks:**
  - **`ListViewport`:** the toolkit's callback from `setViewPosition` to
    `visibleAreaChanged` is performed by `ListViewports.ListViewport.SetViewPosition`
    directly, and only when the position changed.
  - **`CustomViewport`:** `Snapping.CustomViewport.VisibleAreaChanged` performs one pass
    and does not call itself back. `Snapping.SnapPassSettles` shows that the repeated
    passes settle.
- Snapping.SnapIsClose: `SnapIsNearest` and `SnapIdempotent` likewise state the snap's
  distance properties only for `scrollX >= 0`. For a negative position C++ truncation
  rounds toward zero instead.
- Snapping.CustomViewport.VisibleAreaChanged: requires `numOfItems > 0` and
  `contentWidth >= numOfItems` when not dragging. Otherwise the feature width is 0 and
  the source divides by zero.
- ListBox.HorizontalListBox.SelectRangeOfCols: states the new selection state but not
  where the view scrolls. The scroll is that of its final
  `ListBox.HorizontalListBox.SelectColInternal` call.
- ListBox.HorizontalListBox.SelectColumn: states the new selection state but not the
  scroll, which is `ListBox.HorizontalListBox.SelectColInternal`'s.
- ListBox.HorizontalListBox.CellMouseDown: when it selects, it states the new set of
  selected columns but not the anchor and log. Those are given by
  `ListBox.HorizontalListBox.PerformSelection`.
- ListBox.HorizontalListBox.CellMouseUp: states the new selected columns but not the
  anchor and log, for the same reason.
- ListViewports.ListViewport.GetComponentForCol: states only that the cell is one of the
  pool's. The exact slot is `Layout.SlotOf`, whose properties are stated there.
- ListViewports.ListViewport.UpdateVisibleArea: when the content becomes narrower than
  the view, a view position past the content's end is left where it is; no clamp by the
  toolkit on a resize is assumed. The viewport's invariant therefore does not bound
  `viewX` by `max(0, contentWidth - visibleWidth)`, and
  `ListViewports.ListViewport.ScrollToEnsureColIsOnscreen` and
  `ListBox.HorizontalListBox.ScrollToEnsureColIsOnscreen` take that bound as an explicit
  premise for their on-screen guarantee.
