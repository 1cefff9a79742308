/** The selection state machine of HorizontalListBox (Source/HorizonalListBox.cpp:383-529
    and 593-644) on values. JUCE's SparseSet<int> of selected columns is a set<int>, the
    anchor is `last` (lastColSelected, -1 for none), and every notification the selection
    code sends to the data model is appended to `log`. The class ListBox.HorizontalListBox
    performs these same steps on its fields; the functions here are its specification. */
module Selection {
  import opened Juce

  /** Notifications sent to the ListBoxModel. */
  datatype Event =
    | SelectedRowsChanged(lastRowSelected: int)
    | ReturnKeyPressed(row: int)
    | DeleteKeyPressed(row: int)
    | ItemClicked(row: int)

  datatype SelState = SelState(selected: set<int>, last: int, log: seq<Event>)

  /** multipleSelection, alwaysFlipSelection (setClickingTogglesColumnSelection) and
      whether the list box has a model to notify. */
  datatype Flags = Flags(multipleSelection: bool, alwaysFlipSelection: bool, hasModel: bool)

  /** The modifier keys the click policy looks at. */
  datatype ModifierKeys = ModifierKeys(command: bool, shift: bool, popupMenu: bool)

  /** SparseSet::addRange / removeRange with a half-open Range<int> (lo, hi). */
  function Span(lo: int, hi: int): (r: set<int>)
    ensures forall c :: c in r <==> lo <= c < hi
    decreases hi - lo
  {
    if lo >= hi then {} else {lo} + Span(lo + 1, hi)
  }

  /** SparseSet::removeRange; its relation to addRange is RemoveRangeIsSpanDifference. The
      membership clause is kept in the contract for the proofs that use it. */
  function RemoveRange(s: set<int>, lo: int, hi: int): (r: set<int>)
    ensures forall c :: c in r <==> c in s && !(lo <= c < hi)
  {
    set c | c in s && !(lo <= c < hi)
  }

  /** removeRange takes out exactly the span addRange would put in. */
  lemma RemoveRangeIsSpanDifference(s: set<int>, lo: int, hi: int)
    ensures RemoveRange(s, lo, hi) == s - Span(lo, hi)
  {
    forall c | c in RemoveRange(s, lo, hi)
      ensures c in s - Span(lo, hi)
    {
      assert !(lo <= c < hi);
    }
  }

  // ---------------------------------------------------------------------------
  // The ordered view of the selection (SparseSet indexes its values low to high)

  predicate IsLeast(s: set<int>, m: int)
  {
    m in s && forall x :: x in s ==> m <= x
  }

  lemma NonEmptyHasMember(s: set<int>)
    requires s != {}
    ensures exists x :: x in s
  {
    if forall x :: x !in s {
      assert false;
    }
  }

  lemma {:induction false} LeastExists(s: set<int>)
    requires s != {}
    ensures exists m :: IsLeast(s, m)
    decreases |s|
  {
    NonEmptyHasMember(s);
    var y :| y in s;
    if s == {y} {
      assert IsLeast(s, y);
    } else {
      LeastExists(s - {y});
      var m :| IsLeast(s - {y}, m);
      forall x | x in s
        ensures x in s - {y} || x == y
      {
      }
      if y < m {
        assert IsLeast(s, y);
      } else {
        assert IsLeast(s, m);
      }
    }
  }

  function Least(s: set<int>): (m: int)
    requires s != {}
    ensures IsLeast(s, m)
  {
    LeastExists(s);
    var m :| IsLeast(s, m);
    m
  }

  /** The selected columns in ascending order. */
  function Ascending(s: set<int>): (r: seq<int>)
    ensures |r| == |s|
    ensures forall i :: 0 <= i < |r| ==> r[i] in s
    ensures forall x {:trigger x in r} :: x in s <==> x in r
    ensures forall i, j :: 0 <= i < j < |r| ==> r[i] < r[j]
    decreases |s|
  {
    if s == {} then []
    else
      var m := Least(s);
      [m] + Ascending(s - {m})
  }

  /** getSelectedCol (index): the index-th selected column counting from the lowest, or
      -1 when index is out of range (which includes an empty selection). */
  function GetSelectedCol(s: set<int>, index: int): (r: int)
    ensures IsPositiveAndBelow(index, |s|) ==> r in s
    ensures !IsPositiveAndBelow(index, |s|) ==> r == -1
    decreases |s|
  {
    if !IsPositiveAndBelow(index, |s|) then -1
    else if index == 0 then Least(s)
    else GetSelectedCol(s - {Least(s)}, index - 1)
  }

  /** getSelectedCol indexes the ascending order of the selection. */
  lemma {:induction false} SelectedColIsAscending(s: set<int>, i: int)
    requires 0 <= i < |s|
    ensures GetSelectedCol(s, i) == Ascending(s)[i]
    decreases |s|
  {
    if i > 0 {
      var m := Least(s);
      SelectedColIsAscending(s - {m}, i - 1);
      assert Ascending(s) == [m] + Ascending(s - {m});
    }
  }

  lemma {:induction false} IncreasingCard(q: seq<int>)
    requires forall i, j :: 0 <= i < j < |q| ==> q[i] < q[j]
    ensures |set x | x in q| == |q|
  {
    if q != [] {
      IncreasingCard(q[1..]);
      assert (set x | x in q) == {q[0]} + (set x | x in q[1..]);
      assert q[0] !in (set x | x in q[1..]);
    }
  }

  /** getSelectedCol (i) is the i-th smallest selected column: exactly i selected
      columns lie below it, and it grows with i. */
  lemma SelectedColRank(s: set<int>, i: int)
    requires 0 <= i < |s|
    ensures GetSelectedCol(s, i) in s
    ensures |set x | x in s && x < GetSelectedCol(s, i)| == i
    ensures forall j :: i < j < |s| ==> GetSelectedCol(s, i) < GetSelectedCol(s, j)
  {
    var r := Ascending(s);
    SelectedColIsAscending(s, i);
    forall j | i < j < |s|
      ensures GetSelectedCol(s, i) < GetSelectedCol(s, j)
    {
      SelectedColIsAscending(s, j);
    }
    var below := set x | x in s && x < r[i];
    forall x | x in below
      ensures x in r[..i]
    {
      assert x in r;
      var k :| 0 <= k < |r| && r[k] == x;
      assert k < i;
    }
    forall x | x in r[..i]
      ensures x in below
    {
      var k :| 0 <= k < i && r[k] == x;
    }
    assert below == set x | x in r[..i];
    IncreasingCard(r[..i]);
  }

  lemma SingletonOfSmallSet(s: set<int>, c: int)
    requires c in s && |s| <= 1
    ensures s == {c}
  {
    assert |s - {c}| == |s| - 1;
    assert s - {c} == {};
    assert s == {c} + (s - {c});
  }

  // ---------------------------------------------------------------------------
  // State

  /** getLastColumnSelected: the anchor, if it is still selected, else -1 (in particular
      when nothing is selected). */
  function LastColumnSelected(st: SelState): (r: int)
    ensures r == -1 || (r == st.last && r in st.selected)
    ensures st.last in st.selected ==> r == st.last
    ensures st.selected == {} ==> r == -1
  {
    if st.last in st.selected then st.last else -1
  }

  /** What every operation keeps, given the column count `total`: only existing columns
      are selected, and the anchor is a selected column, or -1 exactly when nothing is. */
  ghost predicate Inv(st: SelState, total: int)
  {
    && (forall c :: c in st.selected ==> 0 <= c < total)
    && (st.selected == {} ==> st.last == -1)
    && (st.selected != {} ==> st.last in st.selected)
  }

  /** The default state: nothing selected, no anchor, nothing sent. */
  function Initial(): (st: SelState)
    ensures Inv(st, 0)
  {
    SelState({}, -1, [])
  }

  // ---------------------------------------------------------------------------
  // Operations

  /** deselectAllCols */
  function DeselectAllCols(st: SelState, hasModel: bool): SelState
  {
    if st.selected != {} then
      SelState({}, -1, st.log + if hasModel then [SelectedRowsChanged(-1)] else [])
    else st
  }

  /** The deselectOthersFirst that selectColInternal acts on: forced on without multiple
      selection. */
  function DeselectOthers(f: Flags, deselectOthersFirst: bool): bool
  {
    deselectOthersFirst || !f.multipleSelection
  }

  /** The case of selectColInternal that selects col, moves the anchor and scrolls. */
  predicate Selects(st: SelState, f: Flags, total: int, col: int, deselectOthersFirst: bool)
  {
    && (col !in st.selected || (DeselectOthers(f, deselectOthersFirst) && |st.selected| > 1))
    && IsPositiveAndBelow(col, total)
  }

  /** selectColInternal (selectColumn is this with isMouseClick false). The model is told
      unchecked when a column is selected; that needs an existing column, hence rows and
      a model. */
  function SelectColInternal(st: SelState, f: Flags, total: int, col: int, deselectOthersFirst: bool): SelState
  {
    var dof := DeselectOthers(f, deselectOthersFirst);
    if col !in st.selected || (dof && |st.selected| > 1) then
      if IsPositiveAndBelow(col, total) then
        SelState((if dof then {} else st.selected) + {col}, col, st.log + [SelectedRowsChanged(col)])
      else if dof then DeselectAllCols(st, f.hasModel)
      else st
    else st
  }

  /** deselectCol: the anchor falls back to the lowest selected column. */
  function DeselectCol(st: SelState, col: int): SelState
  {
    if col in st.selected then
      var sel := RemoveRange(st.selected, col, col + 1);
      var last := if col == st.last then GetSelectedCol(sel, 0) else st.last;
      SelState(sel, last, st.log + [SelectedRowsChanged(last)])
    else st
  }

  /** flipColSelection */
  function FlipColSelection(st: SelState, f: Flags, total: int, col: int): SelState
  {
    if col in st.selected then DeselectCol(st, col)
    else SelectColInternal(st, f, total, col, false)
  }

  /** The column selectRangeOfCols ends by selecting: lastCol, limited to the existing
      columns when a range is actually added. */
  function RangeEnd(f: Flags, total: int, firstCol: int, lastCol: int): int
  {
    if f.multipleSelection && firstCol != lastCol then Limit(0, Max(0, total - 1), lastCol)
    else lastCol
  }

  /** The state selectRangeOfCols reaches before it selects the end: with multiple
      selection and two different ends, both ends limited to the existing columns, the
      span between them added and the end taken out again. */
  function RangeAdded(st: SelState, f: Flags, total: int, firstCol: int, lastCol: int): SelState
  {
    if f.multipleSelection && firstCol != lastCol then
      var a := Limit(0, Max(0, total - 1), firstCol);
      var b := RangeEnd(f, total, firstCol, lastCol);
      SelState(AddRangeExceptEnd(st.selected, a, b), st.last, st.log)
    else st
  }

  /** The columns between a and b (either order, both included) added to s, b itself
      then taken out. */
  function AddRangeExceptEnd(s: set<int>, a: int, b: int): (r: set<int>)
    ensures forall c :: c in r <==> (c in s || Min(a, b) <= c <= Max(a, b)) && c != b
  {
    RemoveRange(s + Span(Min(a, b), Max(a, b) + 1), b, b + 1)
  }

  /** selectRangeOfCols: add the span, take its end out, then select the end again so
      that the anchor moves there. */
  function SelectRangeOfCols(st: SelState, f: Flags, total: int, firstCol: int, lastCol: int): SelState
  {
    SelectColInternal(RangeAdded(st, f, total, firstCol, lastCol), f, total, RangeEnd(f, total, firstCol, lastCol), false)
  }

  /** setSelectedCols: every column from totalItems up to (not including) INT_MAX is
      dropped; the anchor stays if still selected, else becomes the lowest. */
  function SetSelectedCols(st: SelState, total: int, cols: set<int>, notify: bool, hasModel: bool): SelState
  {
    var sel := RemoveRange(cols, total, IntMax);
    var last := if st.last in sel then st.last else GetSelectedCol(sel, 0);
    SelState(sel, last, st.log + if hasModel && notify then [SelectedRowsChanged(last)] else [])
  }

  /** The selection part of updateContent with the new row count: when the highest
      selected column no longer exists, the out-of-range columns are dropped and the
      anchor becomes the lowest remaining one. */
  function UpdateContentSelection(st: SelState, total: int, hasModel: bool): SelState
  {
    if |st.selected| > 0 && GetSelectedCol(st.selected, |st.selected| - 1) >= total then
      var sel := RemoveRange(st.selected, total, IntMax);
      var last := GetSelectedCol(sel, 0);
      SelState(sel, last, st.log + if hasModel then [SelectedRowsChanged(last)] else [])
    else st
  }

  /** selectColsBasedOnModifierKeys: the click policy. */
  function SelectColsBasedOnModifierKeys(st: SelState, f: Flags, total: int, col: int,
                                         mods: ModifierKeys, isMouseUp: bool): SelState
  {
    if f.multipleSelection && (mods.command || f.alwaysFlipSelection) then
      FlipColSelection(st, f, total, col)
    else if f.multipleSelection && mods.shift && st.last >= 0 then
      SelectRangeOfCols(st, f, total, st.last, col)
    else if !mods.popupMenu || col !in st.selected then
      SelectColInternal(st, f, total, col, !(f.multipleSelection && !isMouseUp && col in st.selected))
    else st
  }

  // ---------------------------------------------------------------------------
  // Keyboard

  datatype KeyCode =
    | UpKey | DownKey | PageUpKey | PageDownKey | HomeKey | EndKey
    | ReturnKey | DeleteKey | BackspaceKey | LetterA | OtherKey

  /** A key press: its code and which modifiers are held (`other` is any modifier
      besides shift and command). */
  datatype KeyPress = KeyPress(code: KeyCode, shift: bool, command: bool, other: bool)

  /** What keyPressed does with a key. */
  datatype KeyAction =
    | SelectColumnAction(col: int)
    | SelectRangeAction(firstCol: int, lastCol: int)
    | ReturnAction(row: int)
    | DeleteAction(row: int)
    | NotHandled

  predicate IsNavigationKey(code: KeyCode)
  {
    code in {UpKey, DownKey, PageUpKey, PageDownKey, HomeKey, EndKey}
  }

  /** keyPressed's key map. numVisibleColumns is the viewport's width over the column
      width. With multiple selection, an anchor and shift held, a navigation key extends a
      range from the anchor; otherwise it selects a single column. */
  function KeyNavigation(key: KeyPress, f: Flags, selected: set<int>, last: int, total: int, numVisibleColumns: int): KeyAction
  {
    var multiple := f.multipleSelection && last >= 0 && key.shift;
    match key.code
    case UpKey =>
      if multiple then SelectRangeAction(last, last - 1) else SelectColumnAction(Max(0, last - 1))
    case DownKey =>
      if multiple then SelectRangeAction(last, last + 1)
      else SelectColumnAction(Min(total - 1, Max(0, last) + 1))
    case PageUpKey =>
      if multiple then SelectRangeAction(last, last - numVisibleColumns)
      else SelectColumnAction(Max(0, Max(0, last) - numVisibleColumns))
    case PageDownKey =>
      if multiple then SelectRangeAction(last, last + numVisibleColumns)
      else SelectColumnAction(Min(total - 1, Max(0, last) + numVisibleColumns))
    case HomeKey =>
      if multiple then SelectRangeAction(last, 0) else SelectColumnAction(0)
    case EndKey =>
      if multiple then SelectRangeAction(last, total - 1) else SelectColumnAction(total - 1)
    case ReturnKey =>
      if last in selected then ReturnAction(last) else NotHandled
    case DeleteKey =>
      if last in selected then DeleteAction(last) else NotHandled
    case BackspaceKey =>
      if last in selected then DeleteAction(last) else NotHandled
    case LetterA =>
      if f.multipleSelection && key.command && !key.shift && !key.other
      then SelectRangeAction(0, IntMax) else NotHandled
    case OtherKey => NotHandled
  }

  /** The state after keyPressed has carried out an action. */
  function ApplyKeyAction(st: SelState, f: Flags, total: int, action: KeyAction, hasModel: bool): SelState
  {
    match action
    case SelectColumnAction(c) => SelectColInternal(st, f, total, c, true)
    case SelectRangeAction(a, b) => SelectRangeOfCols(st, f, total, a, b)
    case ReturnAction(c) => if hasModel then SelState(st.selected, st.last, st.log + [ReturnKeyPressed(c)]) else st
    case DeleteAction(c) => if hasModel then SelState(st.selected, st.last, st.log + [DeleteKeyPressed(c)]) else st
    case NotHandled => st
  }

  // ---------------------------------------------------------------------------
  // Properties

  /** selectColumn / selectColInternal. An existing column ends up selected, alone when
      others are deselected first and added to the others otherwise; if it was picked
      (not already selected, or collapsing a multi-selection) it becomes the anchor. A
      column that does not exist empties the selection when others are deselected first
      and changes nothing otherwise. A column already selected, with no multi-selection
      to collapse, changes nothing at all. */
  lemma SelectColumnOutcome(st: SelState, f: Flags, total: int, col: int, deselectOthersFirst: bool)
    requires Inv(st, total)
    ensures var r := SelectColInternal(st, f, total, col, deselectOthersFirst);
            var dof := DeselectOthers(f, deselectOthersFirst);
            && (IsPositiveAndBelow(col, total) ==>
                  r.selected == (if dof then {col} else st.selected + {col}))
            && (Selects(st, f, total, col, deselectOthersFirst) ==>
                  LastColumnSelected(r) == col && r.log == st.log + [SelectedRowsChanged(col)])
            && (!IsPositiveAndBelow(col, total) ==>
                  r.selected == (if dof then {} else st.selected) && (dof ==> r.last == -1))
            && (col in st.selected && !(dof && |st.selected| > 1) ==> r == st)
            && Inv(r, total)
  {
    var dof := DeselectOthers(f, deselectOthersFirst);
    if col in st.selected && !(dof && |st.selected| > 1) && dof {
      SingletonOfSmallSet(st.selected, col);
    }
  }

  /** The anchor is the column acted on last, not the highest: with multiple selection,
      adding 10, then 5, then 6 leaves 6 as the last column selected. */
  lemma AnchorIsMostRecent(total: int)
    requires total > 10
    ensures var f := Flags(true, false, true);
            var s1 := SelectColInternal(Initial(), f, total, 10, false);
            var s2 := SelectColInternal(s1, f, total, 5, false);
            var s3 := SelectColInternal(s2, f, total, 6, false);
            s3.selected == {5, 6, 10} && LastColumnSelected(s3) == 6
  {
    var f := Flags(true, false, true);
    var s1 := SelectColInternal(Initial(), f, total, 10, false);
    SelectColumnOutcome(Initial(), f, total, 10, false);
    var s2 := SelectColInternal(s1, f, total, 5, false);
    SelectColumnOutcome(s1, f, total, 5, false);
    SelectColumnOutcome(s2, f, total, 6, false);
  }

  /** deselectCol removes that column and nothing else; if it was the anchor the anchor
      becomes the lowest remaining selected column, or -1. Deselecting a column that is
      not selected changes nothing. */
  lemma DeselectColOutcome(st: SelState, total: int, col: int)
    requires Inv(st, total)
    ensures var r := DeselectCol(st, col);
            && r.selected == st.selected - {col}
            && (col !in st.selected ==> r == st)
            && (col in st.selected && col == st.last ==>
                  r.last == if r.selected == {} then -1 else Least(r.selected))
            && (col != st.last ==> r.last == st.last)
            && Inv(r, total)
  {
    var r := DeselectCol(st, col);
  }

  /** flipColSelection with multiple selection: the column's membership is inverted and
      nothing else is selected or deselected; a newly selected column is the anchor. */
  lemma FlipOutcome(st: SelState, f: Flags, total: int, col: int)
    requires Inv(st, total) && 0 <= col < total && f.multipleSelection
    ensures var r := FlipColSelection(st, f, total, col);
            && r.selected == (if col in st.selected then st.selected - {col} else st.selected + {col})
            && (col !in st.selected ==> LastColumnSelected(r) == col)
            && Inv(r, total)
  {
    if col in st.selected {
      DeselectColOutcome(st, total, col);
    } else {
      SelectColumnOutcome(st, f, total, col, false);
    }
  }

  /** Flipping a column twice restores the selection (with multiple selection on; with it
      off, the first flip of an unselected column drops the others). */
  lemma FlipTwice(st: SelState, f: Flags, total: int, col: int)
    requires Inv(st, total) && 0 <= col < total && f.multipleSelection
    ensures FlipColSelection(FlipColSelection(st, f, total, col), f, total, col).selected == st.selected
  {
    FlipOutcome(st, f, total, col);
    FlipOutcome(FlipColSelection(st, f, total, col), f, total, col);
  }

  /** Without multiple selection, flipping an unselected column selects it alone. */
  lemma FlipWithoutMultipleSelection(st: SelState, total: int, col: int, alwaysFlip: bool)
    requires Inv(st, total) && 0 <= col < total && col !in st.selected
    ensures var r := FlipColSelection(st, Flags(false, alwaysFlip, true), total, col);
            r.selected == {col} && r.last == col
  {
    SelectColumnOutcome(st, Flags(false, alwaysFlip, true), total, col, false);
  }

  /** selectRangeOfCols with multiple selection and two different ends: both ends are
      limited to the existing columns, the whole span between them is added to the
      selection (nothing is removed), and the anchor moves to the limited last end. */
  lemma SelectRangeOutcome(st: SelState, f: Flags, total: int, firstCol: int, lastCol: int)
    requires Inv(st, total) && total > 0 && firstCol != lastCol && f.multipleSelection
    ensures var r := SelectRangeOfCols(st, f, total, firstCol, lastCol);
            var a := Limit(0, total - 1, firstCol);
            var b := Limit(0, total - 1, lastCol);
            && b == RangeEnd(f, total, firstCol, lastCol)
            && r.selected == st.selected + Span(Min(a, b), Max(a, b) + 1)
            && r.last == b
            && r.log == st.log + [SelectedRowsChanged(b)]
            && Inv(r, total)
  {
    var a := Limit(0, total - 1, firstCol);
    var b := Limit(0, total - 1, lastCol);
    var span := Span(Min(a, b), Max(a, b) + 1);
    var mid := RangeAdded(st, f, total, firstCol, lastCol);
    assert mid == SelState(AddRangeExceptEnd(st.selected, a, b), st.last, st.log);
    assert b !in mid.selected && 0 <= b < total;
    var r := SelectColInternal(mid, f, total, b, false);
    assert r == SelState(mid.selected + {b}, b, st.log + [SelectedRowsChanged(b)]);
    assert mid.selected + {b} == st.selected + span;
  }

  /** Shift+click from anchor 2 to 6, then shift+Home (a range back to 0): columns 0 to 6
      are selected and the anchor is 0. */
  lemma RangeThenShiftHome(total: int)
    requires total > 6
    ensures var f := Flags(true, false, true);
            var s1 := SelectRangeOfCols(Initial(), f, total, 2, 6);
            var s2 := SelectRangeOfCols(s1, f, total, s1.last, 0);
            s2.selected == Span(0, 7) && s2.last == 0
  {
    var f := Flags(true, false, true);
    SelectRangeOutcome(Initial(), f, total, 2, 6);
    var s1 := SelectRangeOfCols(Initial(), f, total, 2, 6);
    SelectRangeOutcome(s1, f, total, 6, 0);
    assert Span(2, 7) + Span(0, 7) == Span(0, 7);
  }

  /** setSelectedCols with columns that all exist makes exactly them the selection;
      the anchor stays if still selected and otherwise becomes the lowest one. */
  lemma SetSelectedColsOutcome(st: SelState, total: int, cols: set<int>, notify: bool, hasModel: bool)
    requires 0 <= total <= IntMax
    requires forall c :: c in cols ==> 0 <= c < total
    ensures var r := SetSelectedCols(st, total, cols, notify, hasModel);
            && r.selected == cols
            && (st.last in cols ==> r.last == st.last)
            && (st.last !in cols && cols != {} ==> r.last == Least(cols))
            && Inv(r, total)
  {
    var r := SetSelectedCols(st, total, cols, notify, hasModel);
    assert r.selected == cols;
  }

  /** setSelectedCols does not drop INT_MAX itself, since the range it removes,
      [totalItems, INT_MAX), stops just short of it. */
  lemma SetSelectedColsKeepsIntMax(st: SelState, total: int)
    requires total <= IntMax
    ensures SetSelectedCols(st, total, {IntMax}, false, false).selected == {IntMax}
  {
  }

  /** updateContent with a new row count drops every selected column that no longer
      exists; if any was dropped the anchor becomes the lowest remaining one (or -1). */
  lemma UpdateContentOutcome(st: SelState, oldTotal: int, total: int, hasModel: bool)
    requires Inv(st, oldTotal) && oldTotal <= IntMax && 0 <= total
    ensures var r := UpdateContentSelection(st, total, hasModel);
            && r.selected == set c | c in st.selected && c < total
            && (r.selected != st.selected ==> r.last == if r.selected == {} then -1 else Least(r.selected))
            && Inv(r, total)
  {
    var r := UpdateContentSelection(st, total, hasModel);
    var n := |st.selected|;
    if n > 0 {
      var top := GetSelectedCol(st.selected, n - 1);
      if top < total {
        HighestSelected(st.selected);
      }
    }
  }

  /** getSelectedCol (size - 1) is the highest selected column. */
  lemma HighestSelected(s: set<int>)
    requires s != {}
    ensures forall c :: c in s ==> c <= GetSelectedCol(s, |s| - 1)
  {
    var r := Ascending(s);
    SelectedColIsAscending(s, |s| - 1);
    forall c | c in s
      ensures c <= r[|r| - 1]
    {
      assert c in r;
      var k :| 0 <= k < |r| && r[k] == c;
      if k < |r| - 1 {
        assert r[k] < r[|r| - 1];
      }
    }
  }

  /** Selection {3, 4, 9} with anchor 9, rows cut to 5: {3, 4} remain, anchor 3. */
  lemma ShrinkExample()
    ensures var r := UpdateContentSelection(SelState({3, 4, 9}, 9, []), 5, true);
            r.selected == {3, 4} && r.last == 3
  {
    var st := SelState({3, 4, 9}, 9, []);
    assert Inv(st, 10);
    UpdateContentOutcome(st, 10, 5, true);
    var r := UpdateContentSelection(st, 5, true);
    assert r.selected == {3, 4};
    assert 9 !in r.selected;
    var m := Least({3, 4});
    assert m == 3 by {
      assert IsLeast({3, 4}, m);
    }
  }

  /** A click with no modifier keys selects the clicked column alone and makes it the
      anchor, unless, with multiple selection, it is a mouse-down on a column that is
      already selected (flip-on-click mode aside). */
  lemma PlainClickSelectsOnlyColumn(st: SelState, f: Flags, total: int, col: int, isMouseUp: bool)
    requires Inv(st, total) && 0 <= col < total
    requires !(f.multipleSelection && f.alwaysFlipSelection)
    requires isMouseUp || col !in st.selected || !f.multipleSelection
    ensures var r := SelectColsBasedOnModifierKeys(st, f, total, col, ModifierKeys(false, false, false), isMouseUp);
            r.selected == {col} && LastColumnSelected(r) == col
  {
    SelectColumnOutcome(st, f, total, col, true);
    if col in st.selected && |st.selected| <= 1 {
      SingletonOfSmallSet(st.selected, col);
    }
  }

  /** With multiple selection, pressing the mouse on an already selected column without
      modifiers keeps the whole selection (so that it can be dragged); the collapse to
      one column is left to the mouse-up. */
  lemma MouseDownOnSelectionKeepsIt(st: SelState, f: Flags, total: int, col: int, popup: bool)
    requires f.multipleSelection && !f.alwaysFlipSelection && col in st.selected
    ensures SelectColsBasedOnModifierKeys(st, f, total, col, ModifierKeys(false, false, popup), false) == st
  {
  }

  /** With multiple selection, a command (ctrl) click, or any click in flip-on-click
      mode, inverts the clicked column's membership and leaves the others alone. */
  lemma CommandClickFlips(st: SelState, f: Flags, total: int, col: int, mods: ModifierKeys, isMouseUp: bool)
    requires Inv(st, total) && 0 <= col < total
    requires f.multipleSelection && (mods.command || f.alwaysFlipSelection)
    ensures var r := SelectColsBasedOnModifierKeys(st, f, total, col, mods, isMouseUp);
            r.selected == (if col in st.selected then st.selected - {col} else st.selected + {col})
  {
    FlipOutcome(st, f, total, col);
    if col !in st.selected {
      SelectColumnOutcome(st, f, total, col, false);
    }
  }

  /** With multiple selection, a shift click selects the span from the anchor to the
      clicked column and makes the clicked column the anchor. */
  lemma ShiftClickExtends(st: SelState, f: Flags, total: int, col: int, popup: bool, isMouseUp: bool)
    requires Inv(st, total) && 0 <= col < total && st.last >= 0 && col != st.last
    requires f.multipleSelection && !f.alwaysFlipSelection
    ensures var r := SelectColsBasedOnModifierKeys(st, f, total, col, ModifierKeys(false, true, popup), isMouseUp);
            && r.selected == st.selected + Span(Min(st.last, col), Max(st.last, col) + 1)
            && r.last == col
  {
    SelectRangeOutcome(st, f, total, st.last, col);
  }

  /** A popup-menu click on a selected column (no command or shift action applying)
      leaves the selection as it is. */
  lemma PopupClickOnSelectionKeepsIt(st: SelState, f: Flags, total: int, col: int, mods: ModifierKeys, isMouseUp: bool)
    requires mods.popupMenu && col in st.selected
    requires !(f.multipleSelection && (mods.command || f.alwaysFlipSelection))
    requires !(f.multipleSelection && mods.shift && st.last >= 0)
    ensures SelectColsBasedOnModifierKeys(st, f, total, col, mods, isMouseUp) == st
  {
  }

  /** Flip-on-click mode has no effect without multiple selection. */
  lemma FlipModeNeedsMultipleSelection(st: SelState, total: int, col: int, mods: ModifierKeys, isMouseUp: bool, hasModel: bool)
    ensures SelectColsBasedOnModifierKeys(st, Flags(false, true, hasModel), total, col, mods, isMouseUp).selected
            == SelectColsBasedOnModifierKeys(st, Flags(false, false, hasModel), total, col, mods, isMouseUp).selected
  {
  }

  /** A navigation key without the range modifier selects one column alone and makes it
      the anchor: Home the first, End the last, Up/Down the neighbour of the anchor,
      PageUp/PageDown the column a screenful away, always limited to existing columns.
      With no rows at all, it clears the selection. */
  lemma NavigationSelectsOneColumn(key: KeyPress, f: Flags, st: SelState, total: int, page: int, hasModel: bool)
    requires Inv(st, total) && page >= 0 && IsNavigationKey(key.code)
    requires !(f.multipleSelection && st.last >= 0 && key.shift)
    ensures var action := KeyNavigation(key, f, st.selected, st.last, total, page);
            var r := ApplyKeyAction(st, f, total, action, hasModel);
            && action.SelectColumnAction?
            && (total > 0 ==> 0 <= action.col < total && r.selected == {action.col} && r.last == action.col)
            && (total == 0 ==> r.selected == {} && r.last == -1)
            && (key.code == HomeKey ==> action.col == 0)
            && (key.code == EndKey ==> action.col == total - 1)
            && (key.code == DownKey && 0 <= st.last < total - 1 ==> action.col == st.last + 1)
            && (key.code == UpKey && st.last > 0 ==> action.col == st.last - 1)
            && (key.code == PageDownKey && total > 0 ==> action.col == Min(total - 1, Max(0, st.last) + page))
            && (key.code == PageUpKey ==> action.col == Max(0, Max(0, st.last) - page))
  {
    var action := KeyNavigation(key, f, st.selected, st.last, total, page);
    SelectColumnOutcome(st, f, total, action.col, true);
    if action.col in st.selected && |st.selected| <= 1 {
      SingletonOfSmallSet(st.selected, action.col);
    }
  }

  /** With multiple selection, an anchor and shift held, a navigation key adds the span
      from the anchor to its target (limited to existing columns) and moves the anchor
      to that limited target. */
  lemma ShiftNavigationExtends(key: KeyPress, f: Flags, st: SelState, total: int, page: int, hasModel: bool)
    requires Inv(st, total) && total > 0 && IsNavigationKey(key.code)
    requires f.multipleSelection && st.last >= 0 && key.shift
    ensures var action := KeyNavigation(key, f, st.selected, st.last, total, page);
            var r := ApplyKeyAction(st, f, total, action, hasModel);
            var b := Limit(0, total - 1, action.lastCol);
            && action.SelectRangeAction? && action.firstCol == st.last
            && r.selected == st.selected + Span(Min(st.last, b), Max(st.last, b) + 1)
            && r.last == b
  {
    var action := KeyNavigation(key, f, st.selected, st.last, total, page);
    assert action.SelectRangeAction? && action.firstCol == st.last;
    var r := ApplyKeyAction(st, f, total, action, hasModel);
    assert r == SelectRangeOfCols(st, f, total, st.last, action.lastCol);
    if action.lastCol != st.last {
      SelectRangeOutcome(st, f, total, st.last, action.lastCol);
    } else {
      assert st.last in st.selected;
      assert r == st;
      assert Span(st.last, st.last + 1) == {st.last};
    }
  }

  /** Command+A with multiple selection selects every column, the last one becoming
      the anchor. */
  lemma SelectAllKey(f: Flags, st: SelState, total: int, page: int, hasModel: bool)
    requires Inv(st, total) && 0 < total <= IntMax && f.multipleSelection
    ensures var key := KeyPress(LetterA, false, true, false);
            var r := ApplyKeyAction(st, f, total, KeyNavigation(key, f, st.selected, st.last, total, page), hasModel);
            r.selected == Span(0, total) && r.last == total - 1
  {
    var key := KeyPress(LetterA, false, true, false);
    assert KeyNavigation(key, f, st.selected, st.last, total, page) == SelectRangeAction(0, IntMax);
    var r := ApplyKeyAction(st, f, total, SelectRangeAction(0, IntMax), hasModel);
    assert r == SelectRangeOfCols(st, f, total, 0, IntMax);
    SelectRangeOutcome(st, f, total, 0, IntMax);
    assert Limit(0, total - 1, IntMax) == total - 1;
    SpanAbsorbs(st.selected, total);
  }

  lemma SpanAbsorbs(s: set<int>, total: int)
    requires forall c :: c in s ==> 0 <= c < total
    ensures s + Span(0, total) == Span(0, total)
  {
  }

  /** Return and Delete act on the anchor only when it is selected: the model is told,
      and the selection does not change. */
  lemma ActionKeysNotifyModel(key: KeyPress, f: Flags, st: SelState, total: int, page: int)
    requires key.code in {ReturnKey, DeleteKey, BackspaceKey}
    ensures var action := KeyNavigation(key, f, st.selected, st.last, total, page);
            var r := ApplyKeyAction(st, f, total, action, true);
            && (action.NotHandled? <==> st.last !in st.selected)
            && r.selected == st.selected && r.last == st.last
            && (st.last in st.selected ==>
                  r.log == st.log + [if key.code == ReturnKey then ReturnKeyPressed(st.last) else DeleteKeyPressed(st.last)])
  {
  }

  /** Every key keeps the invariant. */
  lemma KeyKeepsInvariant(key: KeyPress, f: Flags, st: SelState, total: int, page: int, hasModel: bool)
    requires Inv(st, total) && page >= 0
    ensures Inv(ApplyKeyAction(st, f, total, KeyNavigation(key, f, st.selected, st.last, total, page), hasModel), total)
  {
    var action := KeyNavigation(key, f, st.selected, st.last, total, page);
    match action
    case SelectColumnAction(c) => SelectColumnOutcome(st, f, total, c, true);
    case SelectRangeAction(a, b) => RangeKeepsInvariant(st, f, total, a, b);
    case _ =>
  }

  /** selectRangeOfCols keeps the invariant, whatever its arguments and flags. */
  lemma RangeKeepsInvariant(st: SelState, f: Flags, total: int, firstCol: int, lastCol: int)
    requires Inv(st, total)
    ensures Inv(SelectRangeOfCols(st, f, total, firstCol, lastCol), total)
  {
    if f.multipleSelection && firstCol != lastCol && total > 0 {
      SelectRangeOutcome(st, f, total, firstCol, lastCol);
    } else if f.multipleSelection && firstCol != lastCol {
      // no columns: the span is {0}, added and taken out again
      var sel := RemoveRange(st.selected + Span(0, 1), 0, 1);
      assert sel == st.selected;
      SelectColumnOutcome(SelState(sel, st.last, st.log), f, total, 0, false);
    } else {
      SelectColumnOutcome(st, f, total, lastCol, false);
    }
  }

  /** Every click keeps the invariant. */
  lemma ClickKeepsInvariant(st: SelState, f: Flags, total: int, col: int, mods: ModifierKeys, isMouseUp: bool)
    requires Inv(st, total)
    ensures Inv(SelectColsBasedOnModifierKeys(st, f, total, col, mods, isMouseUp), total)
  {
    if f.multipleSelection && (mods.command || f.alwaysFlipSelection) {
      if col in st.selected {
        DeselectColOutcome(st, total, col);
      } else {
        SelectColumnOutcome(st, f, total, col, false);
      }
    } else if f.multipleSelection && mods.shift && st.last >= 0 {
      RangeKeepsInvariant(st, f, total, st.last, col);
    } else if !mods.popupMenu || col !in st.selected {
      SelectColumnOutcome(st, f, total, col, !(f.multipleSelection && !isMouseUp && col in st.selected));
    }
  }
}
