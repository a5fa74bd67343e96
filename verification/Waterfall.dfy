/**
 The event waterfall: a buffer bounded in age and number, a cursor that follows live
 events or stays on one event, and a window that slides just enough to show it.
 */
module Waterfall {
  import opened Bytes

  // ----- State -----

  /** An event with the time it carries, which is the sender's and may be anything. */
  datatype Row = Row(when: int, body: bytes)

  datatype Focus = StreamList | Events

  datatype View = View(
    events: seq<Row>,
    selected: int,
    viewStart: int,
    reverseOrder: bool,
    focus: Focus,
    detailPanelHidden: bool)

  const EVENT_HARD_CAP := 100_000
  /** 24 hours in nanoseconds. */
  const EVENT_RETENTION := 86_400_000_000_000
  const PAGE_STEP := 10
  const DETAIL_PANEL_TOTAL := 10

  const INITIAL := View([], -1, 0, true, Events, false)

  predicate AtLive(v: View) {
    v.events == [] || v.selected == |v.events| - 1
  }

  /** The buffer is within the cap and the cursor on an event, if there is one. */
  predicate Inv(v: View) {
    && |v.events| <= EVENT_HARD_CAP
    && v.viewStart >= 0
    && if v.events == [] then v.selected == -1 || v.selected == 0 else 0 <= v.selected < |v.events|
  }

  // ----- Steps -----

  /** How many events at the head are older than `cutoff`. */
  function AgedCount(events: seq<Row>, cutoff: int): (n: nat)
    ensures n <= |events| && (forall k :: 0 <= k < n ==> events[k].when < cutoff)
    ensures n < |events| ==> events[n].when >= cutoff
  {
    if events == [] || events[0].when >= cutoff then 0 else 1 + AgedCount(events[1..], cutoff)
  }

  function DropCount(events: seq<Row>, now: int): (n: nat)
    ensures n <= |events| && |events| - n <= EVENT_HARD_CAP
  {
    var aged := AgedCount(events, now - EVENT_RETENTION);
    if |events| - aged > EVENT_HARD_CAP then |events| - EVENT_HARD_CAP else aged
  }

  function NotNegative(i: int): nat {
    if i < 0 then 0 else i
  }

  function Evicted(v: View, now: int): View {
    var drop := DropCount(v.events, now);
    if drop == 0 then v
    else v.(events := v.events[drop..],
            selected := NotNegative(v.selected - drop),
            viewStart := NotNegative(v.viewStart - drop))
  }

  function Appended(v: View, row: Row, now: int): View {
    var w := Evicted(v.(events := v.events + [row]), now);
    if AtLive(v) then w.(selected := |w.events| - 1) else w
  }

  function Selected(v: View, idx: int): View {
    v.(selected := if v.events == [] then -1
                   else if idx < 0 then 0
                   else if idx > |v.events| - 1 then |v.events| - 1
                   else idx)
  }

  function Moved(v: View, delta: int): View {
    if v.events == [] then v else Selected(v, v.selected + delta)
  }

  datatype Key = Left | Right | Reverse | Panel | Up | Down | PageUp | PageDown | Home | End

  /** In reverse order up on the screen is newer. */
  function Pressed(v: View, key: Key): View {
    var up := if v.reverseOrder then 1 else -1;
    match key
    case Left => v.(focus := StreamList)
    case Right => v.(focus := Events)
    case Reverse => v.(reverseOrder := !v.reverseOrder)
    case Panel => v.(detailPanelHidden := !v.detailPanelHidden)
    case _ =>
      if v.focus == StreamList then v
      else
        match key
        case Up => Moved(v, up)
        case Down => Moved(v, -up)
        case PageUp => Moved(v, up * PAGE_STEP)
        case PageDown => Moved(v, -up * PAGE_STEP)
        case Home => Selected(v, if v.reverseOrder then |v.events| - 1 else 0)
        case _ => Selected(v, if v.reverseOrder then 0 else |v.events| - 1)
  }

  /** How many rows fit the pane. */
  function Rows(v: View, height: int): (rows: nat)
    ensures rows >= 1
  {
    var rows := height - 3 - if v.detailPanelHidden then 0 else DETAIL_PANEL_TOTAL;
    if rows < 1 then 1 else rows
  }

  /** Where the window starts so that the cursor is in it. */
  function Slid(v: View, rows: nat): int
    requires rows >= 1
  {
    var shown := if v.selected < v.viewStart then v.selected
                 else if v.selected >= v.viewStart + rows then v.selected - rows + 1
                 else v.viewStart;
    var maxStart := NotNegative(|v.events| - rows);
    NotNegative(if shown > maxStart then maxStart else shown)
  }

  function Rendered(v: View, height: int): View {
    if v.events == [] then v else v.(viewStart := Slid(v, Rows(v, height)))
  }

  /** The events shown, as indices from the top of the screen to the bottom. */
  function Range(from: nat, end: nat): (r: seq<nat>)
    requires from <= end
    ensures |r| == end - from
    ensures forall k :: 0 <= k < |r| ==> r[k] == from + k
    decreases end - from
  {
    if from == end then [] else [from] + Range(from + 1, end)
  }

  function Reversed<T>(s: seq<T>): (r: seq<T>)
    ensures |r| == |s| && forall k :: 0 <= k < |s| ==> r[k] == s[|s| - 1 - k]
  {
    if s == [] then [] else Reversed(s[1..]) + [s[0]]
  }

  function WindowEnd(v: View, height: int): int {
    var end := v.viewStart + Rows(v, height);
    if end > |v.events| then |v.events| else end
  }

  /** `v` has just been rendered at `height`. */
  predicate Settled(v: View, height: int) {
    Inv(v) && v.events != [] && Rendered(v, height) == v
  }

  /** After a render the window lies in the buffer, is as full as it can be, and shows
      the cursor; a window that already did has not moved. */
  lemma WindowShowsCursor(v: View, height: int)
    requires Inv(v) && v.events != []
    ensures var w := Rendered(v, height);
            && Settled(w, height)
            && 0 <= w.viewStart <= w.selected < WindowEnd(w, height) <= |w.events|
            && WindowEnd(w, height) - w.viewStart ==
               (if Rows(v, height) < |v.events| then Rows(v, height) else |v.events|)
    ensures v.viewStart <= v.selected < v.viewStart + Rows(v, height) <= |v.events| ==> Rendered(v, height) == v
  {
  }

  function Visible(v: View, height: int): (r: seq<nat>)
    requires 0 <= v.viewStart <= WindowEnd(v, height)
  {
    var window := Range(v.viewStart, WindowEnd(v, height));
    if v.reverseOrder then Reversed(window) else window
  }

  /** Home puts the cursor on the top row of the screen and End on the bottom row,
      whichever way the list is shown. */
  lemma HomeAndEnd(v: View, height: int)
    requires Inv(v) && v.events != [] && v.focus == Events
    ensures var w := Rendered(Pressed(v, Home), height);
            Settled(w, height) && Visible(w, height) != [] && Visible(w, height)[0] == w.selected
    ensures var w := Rendered(Pressed(v, End), height);
            Settled(w, height) && Visible(w, height) != [] && Visible(w, height)[|Visible(w, height)| - 1] == w.selected
  {
    WindowShowsCursor(Pressed(v, Home), height);
    WindowShowsCursor(Pressed(v, End), height);
  }

  // ----- Runs -----

  /** What can happen to the pane: a push that is not a stream event is ignored. */
  datatype Action =
    | Push(row: Option<Row>, now: int)
    | Outage(marker: Row, now: int)
    | Press(key: Key)
    | Render(height: int)

  function Step(v: View, a: Action): View {
    match a
    case Push(row, now) => (match row case None => v case Some(r) => Appended(v, r, now))
    case Outage(row, now) => Appended(v, row, now)
    case Press(key) => Pressed(v, key)
    case Render(height) => Rendered(v, height)
  }

  function AppendedRow(a: Action): seq<Row> {
    match a
    case Push(row, _) => (match row case None => [] case Some(r) => [r])
    case Outage(row, _) => [row]
    case _ => []
  }

  /** A state with the whole history behind it: the buffer is what follows the first
      `dropped` events ever appended. */
  datatype Past = Past(view: View, history: seq<Row>, dropped: nat)

  predicate Consistent(s: Past) {
    Inv(s.view) && s.dropped <= |s.history| && s.view.events == s.history[s.dropped..]
  }

  function StepPast(s: Past, a: Action): Past {
    var w := Step(s.view, a);
    var history := s.history + AppendedRow(a);
    Past(w, history, NotNegative(|history| - |w.events|))
  }

  function Run(s: Past, actions: seq<Action>): Past
    decreases |actions|
  {
    if actions == [] then s
    else Run(StepPast(s, actions[0]), actions[1..])
  }

  /** Where in the history the cursor is. */
  function CursorAt(s: Past): int {
    s.dropped + s.view.selected
  }

  predicate Navigates(a: Action) {
    a.Press? && a.key in {Up, Down, PageUp, PageDown, Home, End}
  }

  /** Eviction moves the cursor and the window with the events they are on. */
  lemma EvictedShifts(v: View, now: int)
    requires v.viewStart >= 0 && v.selected >= -1
    ensures var w := Evicted(v, now);
            && |w.events| <= EVENT_HARD_CAP && |w.events| <= |v.events|
            && w.viewStart == NotNegative(v.viewStart - (|v.events| - |w.events|))
            && (v.selected >= 0 ==> w.selected == NotNegative(v.selected - (|v.events| - |w.events|)))
            && (v.selected == -1 ==> w.selected == if |w.events| < |v.events| then 0 else -1)
  {
  }

  /** Every step keeps the invariant and only ever drops the oldest events. */
  lemma {:induction false} StepKeeps(s: Past, a: Action)
    requires Consistent(s)
    ensures Consistent(StepPast(s, a)) && s.dropped <= StepPast(s, a).dropped
    ensures s.history <= StepPast(s, a).history
  {
    hide Step, AppendedRow, Inv;
    StepSuffix(s.view, a);
    var rows, w := AppendedRow(a), Step(s.view, a);
    Suffix(s.history, rows, s.dropped, |w.events|);
  }

  lemma StepSuffix(v: View, a: Action)
    requires Inv(v)
    ensures var grown, w := v.events + AppendedRow(a), Step(v, a);
            Inv(w) && |w.events| <= |grown| && w.events == grown[|grown| - |w.events|..]
  {
    hide Appended, Pressed, Rendered, Inv;
    if AppendedRow(a) == [] {
      OtherKeeps(v, a);
      assert v.events + [] == v.events;
    } else {
      AppendKeeps(v, AppendedRow(a)[0], a.now);
      AppendDropsHead(v, AppendedRow(a)[0], a.now);
      assert AppendedRow(a) == [AppendedRow(a)[0]];
    }
  }

  lemma AppendKeeps(v: View, row: Row, now: int)
    requires Inv(v)
    ensures Inv(Appended(v, row, now))
  {
    hide Evicted, DropCount, AgedCount;
    EvictedShifts(v.(events := v.events + [row]), now);
  }

  lemma AppendDropsHead(v: View, row: Row, now: int)
    requires Inv(v)
    ensures var grown, w := v.events + [row], Appended(v, row, now);
            |w.events| <= |grown| && w.events == grown[|grown| - |w.events|..]
  {
    hide Evicted, DropCount, AgedCount;
    EvictionIsExact(v.(events := v.events + [row]), now);
  }

  lemma OtherKeeps(v: View, a: Action)
    requires Inv(v) && AppendedRow(a) == []
    ensures Inv(Step(v, a)) && Step(v, a).events == v.events
  {
    if v.events != [] && a.Render? { WindowShowsCursor(v, a.height); }
  }

  lemma Suffix(history: seq<Row>, rows: seq<Row>, dropped: nat, keep: nat)
    requires dropped <= |history| && keep <= |history| - dropped + |rows|
    ensures (history[dropped..] + rows)[|history| - dropped + |rows| - keep..] ==
            (history + rows)[|history| + |rows| - keep..]
  {
  }

  /** Over every run the buffer stays within the cap and the cursor on an event of it. */
  lemma {:induction false} RunKeeps(s: Past, actions: seq<Action>)
    requires Consistent(s)
    ensures Consistent(Run(s, actions)) && s.dropped <= Run(s, actions).dropped
    ensures s.history <= Run(s, actions).history
    decreases |actions|
  {
    if actions != [] {
      StepKeeps(s, actions[0]);
      RunKeeps(StepPast(s, actions[0]), actions[1..]);
    }
  }

  lemma EveryRun(actions: seq<Action>)
    ensures Inv(Run(Past(INITIAL, [], 0), actions).view)
  {
    RunKeeps(Past(INITIAL, [], 0), actions);
  }

  /** A step that is not a navigation key leaves a scrolled cursor on its event, or on
      the oldest one left once that is gone, and a live cursor on the newest. */
  lemma {:induction false} StepPoints(s: Past, a: Action)
    requires Consistent(s) && !Navigates(a)
    ensures var t := StepPast(s, a);
            if AtLive(s.view) then AtLive(t.view)
            else if t.view.events == [] then t.view.selected == 0
            else CursorAt(t) == if CursorAt(s) < t.dropped then t.dropped else CursorAt(s)
  {
    StepKeeps(s, a);
    var rows := AppendedRow(a);
    if rows != [] {
      EvictedShifts(s.view.(events := s.view.events + rows), a.now);
    }
  }

  ghost predicate NoNavigation(actions: seq<Action>) {
    forall k :: 0 <= k < |actions| ==> !Navigates(actions[k])
  }

  /** However many events arrive and go, a scrolled cursor stays on the same event until
      that event is evicted. */
  lemma {:induction false} ScrolledStays(s: Past, actions: seq<Action>)
    requires Consistent(s) && !AtLive(s.view) && NoNavigation(actions)
    requires Run(s, actions).dropped <= CursorAt(s)
    ensures var t := Run(s, actions);
            && CursorAt(t) == CursorAt(s) && !AtLive(t.view) && t.view.events != [] && Inv(t.view)
            && t.view.events[t.view.selected] == s.view.events[s.view.selected]
    decreases |actions|
  {
    if actions != [] {
      var t := StepPast(s, actions[0]);
      assert !Navigates(actions[0]);
      StepKeeps(s, actions[0]);
      StepPoints(s, actions[0]);
      RunKeeps(t, actions[1..]);
      StillScrolled(s, t);
      assert forall k :: 0 <= k < |actions[1..]| ==> actions[1..][k] == actions[k + 1];
      ScrolledStays(t, actions[1..]);
    }
  }

  lemma StillScrolled(s: Past, t: Past)
    requires Consistent(s) && Consistent(t) && !AtLive(s.view) && s.history <= t.history
    requires t.dropped <= CursorAt(s)
    requires if t.view.events == [] then t.view.selected == 0
             else CursorAt(t) == if CursorAt(s) < t.dropped then t.dropped else CursorAt(s)
    ensures t.view.events != [] && CursorAt(t) == CursorAt(s) && !AtLive(t.view)
    ensures t.view.events[t.view.selected] == s.view.events[s.view.selected]
  {
    assert s.view.events[s.view.selected] == s.history[CursorAt(s)];
    assert t.view.events[t.view.selected] == t.history[CursorAt(t)];
  }

  /** A live cursor follows the newest event until a key moves it. */
  lemma {:induction false} LiveFollows(s: Past, actions: seq<Action>)
    requires Consistent(s) && AtLive(s.view) && NoNavigation(actions)
    ensures AtLive(Run(s, actions).view)
    decreases |actions|
  {
    if actions != [] {
      assert !Navigates(actions[0]);
      StepKeeps(s, actions[0]);
      StepPoints(s, actions[0]);
      assert forall k :: 0 <= k < |actions[1..]| ==> actions[1..][k] == actions[k + 1];
      LiveFollows(StepPast(s, actions[0]), actions[1..]);
    }
  }

  /** What eviction drops is aged, or beyond the cap; what it leaves at the head is not
      aged. */
  lemma EvictionIsExact(v: View, now: int)
    ensures var w := Evicted(v, now);
            var dropped := |v.events| - |w.events|;
            && 0 <= dropped && w.events == v.events[dropped..]
            && (forall k :: 0 <= k < dropped && |v.events| - k <= EVENT_HARD_CAP ==>
                  v.events[k].when < now - EVENT_RETENTION)
            && (w.events != [] && |w.events| < EVENT_HARD_CAP ==> w.events[0].when >= now - EVENT_RETENTION)
  {
  }

  // ----- The model -----

  method CountAged(events: seq<Row>, cutoff: int) returns (drop: nat)
    ensures drop == AgedCount(events, cutoff)
  {
    drop := 0;
    assert events[0..] == events;
    while drop < |events| && events[drop].when < cutoff
      invariant drop <= |events|
      invariant AgedCount(events, cutoff) == drop + AgedCount(events[drop..], cutoff)
    {
      assert events[drop..][1..] == events[drop + 1..];
      drop := drop + 1;
    }
  }

  class Monitor {
    var events: seq<Row>
    var selected: int
    var viewStart: int
    var reverseOrder: bool
    var focus: Focus
    var detailPanelHidden: bool

    function Now(): View
      reads this
    {
      View(events, selected, viewStart, reverseOrder, focus, detailPanelHidden)
    }

    constructor ()
      ensures Now() == INITIAL
    {
      events, selected, viewStart := [], -1, 0;
      reverseOrder, focus, detailPanelHidden := true, Events, false;
    }

    method SetSelected(idx: int)
      modifies this`selected
      ensures Now() == Selected(old(Now()), idx)
    {
      if |events| == 0 {
        selected := -1;
        return;
      }
      var i := idx;
      if i < 0 {
        i := 0;
      }
      if i > |events| - 1 {
        i := |events| - 1;
      }
      selected := i;
    }

    method MoveSelected(delta: int)
      modifies this`selected
      ensures Now() == Moved(old(Now()), delta)
    {
      if |events| == 0 {
        return;
      }
      SetSelected(selected + delta);
    }

    method EvictAged(now: int)
      modifies this
      ensures Now() == Evicted(old(Now()), now)
    {
      var drop: nat := CountAged(events, now - EVENT_RETENTION);
      var remaining := |events| - drop;
      if remaining > EVENT_HARD_CAP {
        drop := drop + (remaining - EVENT_HARD_CAP);
      }
      assert drop == DropCount(events, now);
      hide DropCount, AgedCount;
      if drop == 0 {
        return;
      }
      events := events[drop..];
      selected := selected - drop;
      viewStart := viewStart - drop;
      if selected < 0 {
        selected := 0;
      }
      if viewStart < 0 {
        viewStart := 0;
      }
    }

    method Append(row: Row, now: int)
      modifies this
      ensures Now() == Appended(old(Now()), row, now)
    {
      var wasLive := AtLive(Now());
      events := events + [row];
      EvictAged(now);
      if wasLive {
        selected := |events| - 1;
      }
    }

    /** A push is projected to a row if it is a stream event that decodes. */
    method HandlePush(row: Option<Row>, now: int)
      modifies this
      ensures Now() == Step(old(Now()), Action.Push(row, now))
    {
      if row.None? {
        return;
      }
      Append(row.value, now);
    }

    method AppendOutageMarker(row: Row, now: int)
      modifies this
      ensures Now() == Step(old(Now()), Action.Outage(row, now))
    {
      Append(row, now);
    }

    method Update(key: Key)
      modifies this
      ensures Now() == Pressed(old(Now()), key)
    {
      if key == Left {
        focus := StreamList;
      } else if key == Right {
        focus := Events;
      } else if key == Reverse {
        reverseOrder := !reverseOrder;
      } else if key == Panel {
        detailPanelHidden := !detailPanelHidden;
      } else if focus == Events {
        var screenUpDelta, screenDnDelta := -1, 1;
        if reverseOrder {
          screenUpDelta, screenDnDelta := 1, -1;
        }
        if key == Up {
          MoveSelected(screenUpDelta);
        } else if key == Down {
          MoveSelected(screenDnDelta);
        } else if key == PageUp {
          MoveSelected(screenUpDelta * PAGE_STEP);
        } else if key == PageDown {
          MoveSelected(screenDnDelta * PAGE_STEP);
        } else if key == Home {
          SetSelected(if reverseOrder then |events| - 1 else 0);
        } else {
          SetSelected(if reverseOrder then 0 else |events| - 1);
        }
      }
    }

    /** Slides the window just enough to keep the cursor in it. */
    method SlideWindow(rows: nat)
      requires rows >= 1 && events != []
      modifies this`viewStart
      ensures viewStart == Slid(old(Now()), rows)
      ensures 0 <= viewStart <= |events|
    {
      var total := |events|;
      if selected < viewStart {
        viewStart := selected;
      }
      if selected >= viewStart + rows {
        viewStart := selected - rows + 1;
      }
      var maxStart := total - rows;
      if maxStart < 0 {
        maxStart := 0;
      }
      if viewStart > maxStart {
        viewStart := maxStart;
      }
      if viewStart < 0 {
        viewStart := 0;
      }
    }

    /** Slides the window and lists the events to show, from the top of the screen. */
    method RenderWaterfall(height: int) returns (visible: array<nat>)
      modifies this`viewStart
      ensures fresh(visible)
      ensures Now() == Rendered(old(Now()), height)
      ensures events == [] ==> visible.Length == 0
      ensures events != [] ==> 0 <= viewStart <= WindowEnd(Now(), height) && visible[..] == Visible(Now(), height)
    {
      if |events| == 0 {
        visible := new nat[0];
        return;
      }
      var panelTotal := 0;
      if !detailPanelHidden {
        panelTotal := DETAIL_PANEL_TOTAL;
      }
      var rows := height - 2 - 1 - panelTotal;
      if rows < 1 {
        rows := 1;
      }
      SlideWindow(rows);
      var end := viewStart + rows;
      if end > |events| {
        end := |events|;
      }
      assert Now() == Rendered(old(Now()), height);
      assert end == WindowEnd(Now(), height);
      visible := FillWindow(viewStart, end);
      if reverseOrder {
        ReverseInPlace(visible);
      }
    }
  }

  method FillWindow(from: nat, end: nat) returns (a: array<nat>)
    requires from <= end
    ensures fresh(a) && a[..] == Range(from, end)
  {
    a := new nat[end - from];
    for i := 0 to a.Length
      invariant forall k :: 0 <= k < i ==> a[k] == from + k
    {
      a[i] := from + i;
    }
  }

  method ReverseInPlace(a: array<nat>)
    modifies a
    ensures a[..] == Reversed(old(a[..]))
  {
    ghost var was := a[..];
    var n := a.Length;
    var i, j := 0, n - 1;
    while i < j
      invariant 0 <= i <= j + 1 && i + j == n - 1
      invariant forall k :: 0 <= k < i ==> a[k] == was[n - 1 - k] && a[n - 1 - k] == was[k]
      invariant forall k :: i <= k <= j ==> a[k] == was[k]
    {
      a[i], a[j] := a[j], a[i];
      i, j := i + 1, j - 1;
    }
    forall k | 0 <= k < n ensures a[k] == Reversed(was)[k] {
      if k > j { assert n - 1 - k < i; }
    }
  }
}
