/** HorizontalListBox::ColumnComponent (Source/HorizonalListBox.cpp:13-126): one cell of
    the recycled pool. It shows a column, remembers whether that column is selected, and
    turns mouse presses into selections. The selection itself is done by the owning list
    box: the mouse methods here return whether it must be performed now. */
module Cells {
  import opened Juce

  /** The three flags a press goes through. */
  datatype Press = Press(isDragging: bool, isDraggingToScroll: bool, selectColOnMouseUp: bool)

  /** A mouse-down's outcome: the new press flags, and whether the selection is performed
      at once. */
  datatype Down = Down(press: Press, selectNow: bool)

  /** mouseDown: a cell selects at once only when the list box selects on mouse-down,
      its column is not already selected and it is not inside a drag-to-scroll viewport;
      otherwise an enabled cell defers the selection to the mouse-up. */
  function MouseDownStep(enabled: bool, selectOnMouseDown: bool, selected: bool, inDragToScrollViewport: bool): Down
  {
    if enabled then
      if selectOnMouseDown && !(selected || inDragToScrollViewport) then Down(Press(false, false, false), true)
      else Down(Press(false, false, true), false)
    else Down(Press(false, false, false), false)
  }

  /** mouseUp: the deferred selection happens unless the press turned into a drag. */
  function MouseUpStep(p: Press, enabled: bool): bool
  {
    enabled && p.selectColOnMouseUp && !(p.isDragging || p.isDraggingToScroll)
  }

  /** The columns a drag carries: the selection when the list box selects on mouse-down
      or the cell's column is selected, else the cell's column alone. */
  function ColsToDrag(col: int, selectOnMouseDown: bool, selection: set<int>): (r: set<int>)
    ensures col in selection ==> r == selection
    ensures selectOnMouseDown ==> r == selection
    ensures !selectOnMouseDown ==> col in r
    ensures !selectOnMouseDown && col !in selection ==> r == {col}
    ensures r <= selection + {col}
  {
    if selectOnMouseDown || col in selection then selection else {col}
  }

  /** What a mouse-drag event sees: whether the list box has a model, whether the cell is
      enabled, whether the mouse has moved since the press, the columns it would drag,
      whether the model's drag description is usable (not void, not an empty string),
      whether there is a viewport and whether that viewport is scrolling on the drag. */
  datatype DragEvent = DragEvent(hasModel: bool, enabled: bool, movedSinceDown: bool, cols: set<int>,
                                 descriptionUsable: bool, hasViewport: bool, scrollingOnDrag: bool)

  /** Whether a mouse-drag event starts a drag-and-drop. */
  predicate StartsDrag(p: Press, e: DragEvent)
  {
    e.hasModel && e.enabled && e.movedSinceDown && !p.isDragging && |e.cols| > 0 && e.descriptionUsable
  }

  /** mouseDrag: a drag-and-drop starts (once per press) when there is a model, the cell
      is enabled, the mouse has moved, there is something to drag and the model gives a
      usable description; independently, the press notes when the viewport has begun
      scrolling on the drag. */
  function MouseDragStep(p: Press, e: DragEvent): Press
  {
    var toScroll := if !p.isDraggingToScroll && e.hasViewport then e.scrollingOnDrag else p.isDraggingToScroll;
    Press(p.isDragging || StartsDrag(p, e), toScroll, p.selectColOnMouseUp)
  }

  /** A press and release on an enabled cell with no drag in between performs the
      selection exactly once: either on the way down or on the way up, never both. A
      disabled cell performs none. */
  lemma ClickSelectsOnce(enabled: bool, selectOnMouseDown: bool, selected: bool, inDragToScrollViewport: bool)
    ensures var d := MouseDownStep(enabled, selectOnMouseDown, selected, inDragToScrollViewport);
            var up := MouseUpStep(d.press, enabled);
            && (enabled ==> (d.selectNow <==> !up))
            && (!enabled ==> !d.selectNow && !up)
  {
  }

  /** Pressing on a cell whose column is already selected never selects on the way down,
      so a multiple selection survives until it is known whether the press is a drag. */
  lemma SelectedCellDefers(enabled: bool, selectOnMouseDown: bool, inDragToScrollViewport: bool)
    ensures var d := MouseDownStep(enabled, selectOnMouseDown, true, inDragToScrollViewport);
            !d.selectNow && (enabled ==> d.press.selectColOnMouseUp)
  {
  }

  /** Once a press has become a drag-and-drop or a scroll-on-drag, no later drag event
      undoes it, and the mouse-up performs no selection. */
  lemma {:induction false} DragCancelsDeferredSelection(p: Press, events: seq<DragEvent>, enabled: bool)
    requires p.isDragging || p.isDraggingToScroll
    ensures var q := DragAll(p, events);
            (q.isDragging || q.isDraggingToScroll) && !MouseUpStep(q, enabled)
    decreases |events|
  {
    if events != [] {
      DragCancelsDeferredSelection(MouseDragStep(p, events[0]), events[1..], enabled);
    }
  }

  /** The press after a series of mouse-drag events. */
  function DragAll(p: Press, events: seq<DragEvent>): Press
    decreases |events|
  {
    if events == [] then p else DragAll(MouseDragStep(p, events[0]), events[1..])
  }

  /** A drag-and-drop starts at most once per press: a second drag event on a press that
      is already dragging leaves the press as it is, or only records scrolling. */
  lemma DragStartsOnce(p: Press, e: DragEvent)
    requires p.isDragging
    ensures !StartsDrag(p, e)
    ensures var q := MouseDragStep(p, e);
            q.isDragging && q.selectColOnMouseUp == p.selectColOnMouseUp
  {
  }

  class ColumnComponent {
    var col: int
    var selected: bool
    var press: Press
    /** Number of repaint requests the cell has made. */
    var repaints: nat
    /** The bounds the viewport gives the cell: left edge, width and height. */
    var boundsX: int
    var boundsWidth: int
    var boundsHeight: int

    constructor ()
      ensures col == -1 && !selected && press == Press(false, false, false) && repaints == 0
      ensures boundsX == 0 && boundsWidth == 0 && boundsHeight == 0
    {
      col := -1;
      selected := false;
      press := Press(false, false, false);
      repaints := 0;
      boundsX, boundsWidth, boundsHeight := 0, 0, 0;
    }

    /** update: shows newCol with the given selection state, repainting only when one of
        them changes. */
    method Update(newCol: int, nowSelected: bool)
      modifies this
      ensures col == newCol && selected == nowSelected
      ensures repaints == old(repaints) + if old(col) != newCol || old(selected) != nowSelected then 1 else 0
      ensures press == old(press)
      ensures boundsX == old(boundsX) && boundsWidth == old(boundsWidth) && boundsHeight == old(boundsHeight)
    {
      if col != newCol || selected != nowSelected {
        repaints := repaints + 1;
        col := newCol;
        selected := nowSelected;
      }
    }

    /** setBounds (x, 0, width, height) as the viewport lays the cell out. */
    method SetBounds(x: int, width: int, height: int)
      modifies this
      ensures boundsX == x && boundsWidth == width && boundsHeight == height
      ensures col == old(col) && selected == old(selected) && press == old(press) && repaints == old(repaints)
    {
      boundsX, boundsWidth, boundsHeight := x, width, height;
    }

    method MouseDown(enabled: bool, selectOnMouseDown: bool, inDragToScrollViewport: bool) returns (selectNow: bool)
      modifies this
      ensures var d := MouseDownStep(enabled, selectOnMouseDown, old(selected), inDragToScrollViewport);
              press == d.press && selectNow == d.selectNow
      ensures col == old(col) && selected == old(selected) && repaints == old(repaints)
      ensures boundsX == old(boundsX) && boundsWidth == old(boundsWidth) && boundsHeight == old(boundsHeight)
    {
      press := Press(false, false, false);
      selectNow := false;
      if enabled {
        if selectOnMouseDown && !(selected || inDragToScrollViewport) {
          selectNow := true;
        } else {
          press := press.(selectColOnMouseUp := true);
        }
      }
    }

    method MouseUp(enabled: bool) returns (selectNow: bool)
      ensures selectNow == MouseUpStep(press, enabled)
      ensures selectNow ==> enabled && !press.isDragging && !press.isDraggingToScroll
    {
      selectNow := enabled && press.selectColOnMouseUp && !(press.isDragging || press.isDraggingToScroll);
    }

    /** mouseDrag; `selection` is the owner's selected columns and the flags describe the
        model, the viewport and the mouse. Returns the columns handed to
        startDragAndDrop when a drag starts. */
    method MouseDrag(hasModel: bool, enabled: bool, movedSinceDown: bool, selectOnMouseDown: bool,
                     selection: set<int>, descriptionUsable: bool, hasViewport: bool, scrollingOnDrag: bool)
      returns (dragged: Option<set<int>>)
      modifies this
      ensures var cols := ColsToDrag(col, selectOnMouseDown, selection);
              press == MouseDragStep(old(press), DragEvent(hasModel, enabled, movedSinceDown, cols, descriptionUsable,
                                                           hasViewport, scrollingOnDrag))
      ensures dragged.Some? <==> press.isDragging && !old(press).isDragging
      ensures dragged.Some? ==> dragged.value == ColsToDrag(col, selectOnMouseDown, selection) && dragged.value != {}
      ensures col == old(col) && selected == old(selected) && repaints == old(repaints)
      ensures boundsX == old(boundsX) && boundsWidth == old(boundsWidth) && boundsHeight == old(boundsHeight)
    {
      dragged := None;
      if hasModel {
        if enabled && movedSinceDown && !press.isDragging {
          var colsToDrag := ColsToDrag(col, selectOnMouseDown, selection);
          if |colsToDrag| > 0 {
            if descriptionUsable {
              press := press.(isDragging := true);
              dragged := Some(colsToDrag);
            }
          }
        }
      }
      if !press.isDraggingToScroll {
        if hasViewport {
          press := press.(isDraggingToScroll := scrollingOnDrag);
        }
      }
    }
  }
}
