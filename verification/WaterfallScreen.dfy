/**
 What the keys do on the screen: in either order the cursor moves up and down the list
 as it is displayed, and no other key moves it.
 */
module WaterfallScreen {
  import opened Waterfall

  /** Every event of the buffer in the order of the screen, top first. */
  function ScreenOrder(v: View): (order: seq<nat>)
    ensures |order| == |v.events|
  {
    seq(|v.events|, (k: int) requires 0 <= k < |v.events| =>
        if v.reverseOrder then |v.events| - 1 - k else k)
  }

  /** `row` is the cursor's row in that list. */
  predicate CursorOn(v: View, row: nat) {
    row < |v.events| && ScreenOrder(v)[row] == v.selected
  }

  /** Where a window of `v` starts in that list. */
  function TopRow(v: View, height: int): int {
    if v.reverseOrder then |v.events| - WindowEnd(v, height) else v.viewStart
  }

  /** What is displayed is a stretch of that list, with the cursor in it. */
  lemma DisplayedIsStretch(v: View, height: int)
    requires Settled(v, height)
    ensures 0 <= v.viewStart <= WindowEnd(v, height) <= |v.events|
    ensures var shown, top := Visible(v, height), TopRow(v, height);
            && |shown| == WindowEnd(v, height) - v.viewStart && top >= 0 && top + |shown| <= |v.events|
            && shown == ScreenOrder(v)[top..top + |shown|] && v.selected in shown
  {
    WindowShowsCursor(v, height);
    hide Visible, WindowEnd, Settled, ScreenOrder;
    var end := WindowEnd(v, height);
    var cursor := if v.reverseOrder then end - 1 - v.selected else v.selected - v.viewStart;
    ShownAt(v, height, cursor);
    assert Visible(v, height)[cursor] == v.selected;
    StretchAt(v, height);
  }

  lemma StretchAt(v: View, height: int)
    requires 0 <= v.viewStart < WindowEnd(v, height) <= |v.events|
    ensures var shown, top := Visible(v, height), TopRow(v, height);
            && |shown| == WindowEnd(v, height) - v.viewStart && top >= 0 && top + |shown| <= |v.events|
            && shown == ScreenOrder(v)[top..top + |shown|]
  {
    hide Visible, WindowEnd;
    var shown, top := Visible(v, height), TopRow(v, height);
    ShownAt(v, height, 0);
    forall k: nat | 0 <= k < |shown| ensures shown[k] == ScreenOrder(v)[top + k] {
      ShownAt(v, height, k);
    }
  }

  lemma ShownAt(v: View, height: int, k: nat)
    requires 0 <= v.viewStart <= WindowEnd(v, height) && k < WindowEnd(v, height) - v.viewStart
    ensures |Visible(v, height)| == WindowEnd(v, height) - v.viewStart
    ensures Visible(v, height)[k] == if v.reverseOrder then WindowEnd(v, height) - 1 - k else v.viewStart + k
  {
    hide Range, Reversed, Rows;
  }

  /** The cursor is on exactly one row. */
  lemma CursorRow(v: View) returns (row: nat)
    requires Inv(v) && v.events != []
    ensures CursorOn(v, row) && forall other :: CursorOn(v, other) ==> other == row
  {
    row := if v.reverseOrder then |v.events| - 1 - v.selected else v.selected;
  }

  /** `row`, moved `down` rows down the screen and stopped at its first and last row. */
  function RowMoved(row: int, down: int, rows: nat): int {
    if row + down < 0 then 0 else if row + down >= rows then rows - 1 else row + down
  }

  /** Rows down the screen each navigation key moves, however far the ends are. */
  function RowsDown(key: Key, rows: int): int {
    match key
    case Up => -1
    case Down => 1
    case PageUp => -10
    case PageDown => 10
    case Home => -rows
    case End => rows
    case _ => 0
  }

  lemma KeyMoves(v: View, key: Key, row: nat)
    requires Inv(v) && v.focus == Events && CursorOn(v, row) && Navigates(Press(key))
    ensures var target := RowMoved(row, RowsDown(key, |v.events|), |v.events|);
            && 0 <= target < |v.events|
            && Pressed(v, key) == v.(selected := ScreenOrder(v)[target]) && Inv(Pressed(v, key))
  {
  }

  lemma SameOrder(v: View, selected: int, viewStart: int)
    ensures ScreenOrder(v.(selected := selected, viewStart := viewStart)) == ScreenOrder(v)
  {
  }

  /** In either order, once the screen is drawn again the cursor is the stated number of
      rows up or down the list that was displayed, and visible; nothing else has changed. */
  lemma KeysMoveOnScreen(v: View, height: int, key: Key, row: nat)
    requires Inv(v) && v.focus == Events && CursorOn(v, row) && Navigates(Press(key))
    ensures var w := Rendered(Pressed(v, key), height);
            var target := RowMoved(row, RowsDown(key, |v.events|), |v.events|);
            && 0 <= target < |v.events| && w.selected == ScreenOrder(v)[target]
            && Settled(w, height) && ScreenOrder(w) == ScreenOrder(v) && CursorOn(w, target)
            && w == v.(selected := w.selected, viewStart := w.viewStart)
  {
    KeyMoves(v, key, row);
    hide Pressed, RowMoved, RowsDown, Slid, Visible, ScreenOrder, Rows;
    var u := Pressed(v, key);
    WindowShowsCursor(u, height);
    SameOrder(v, u.selected, Rendered(u, height).viewStart);
  }

  /** Seen from the rows displayed: Up goes to the row displayed above, Down to the one
      below. */
  lemma NeighboursOnScreen(v: View, height: int, k: nat)
    requires Settled(v, height) && v.focus == Events && 0 <= v.viewStart <= WindowEnd(v, height)
    requires k < |Visible(v, height)| && Visible(v, height)[k] == v.selected
    ensures k > 0 ==> Pressed(v, Up).selected == Visible(v, height)[k - 1]
    ensures k + 1 < |Visible(v, height)| ==> Pressed(v, Down).selected == Visible(v, height)[k + 1]
  {
    hide Visible, Slid, ScreenOrder;
    DisplayedIsStretch(v, height);
    ShownAt(v, height, k);
    if k > 0 { ShownAt(v, height, k - 1); }
    if k + 1 < |Visible(v, height)| { ShownAt(v, height, k + 1); }
  }

  /** The other keys: each changes one thing that is not the cursor; with the stream list
      focused no key moves the cursor, and on an empty buffer neither do the arrow and
      page keys. */
  lemma OtherKeys(v: View, key: Key)
    requires !Navigates(Press(key)) || v.focus == StreamList || (v.events == [] && key != Home && key != End)
    ensures var w := Pressed(v, key);
            && w.events == v.events && w.selected == v.selected && w.viewStart == v.viewStart
            && w.focus == (if key == Left then StreamList else if key == Right then Events else v.focus)
            && (w.reverseOrder != v.reverseOrder <==> key == Reverse)
            && (w.detailPanelHidden != v.detailPanelHidden <==> key == Panel)
  {
  }

  /** Reversing shows the same events the other way round. */
  lemma ReversedOrder(v: View)
    ensures ScreenOrder(Pressed(v, Reverse)) == Reversed(ScreenOrder(v))
    ensures Pressed(Pressed(v, Reverse), Reverse) == v
  {
  }

  /** The rows, the title with its blank line and the header fill the pane, together with
      the detail panel when it is not hidden; there is always one row. */
  lemma RowsFillPane(v: View, height: int)
    ensures var panel := if v.detailPanelHidden then 0 else 10;
            if height > 3 + panel then Rows(v, height) + 3 + panel == height else Rows(v, height) == 1
  {
  }
}
