/** struct treeview: the root node, the selected node and the first row on
    screen, updated in place by the event handler and by the redraw's
    scrolling. The tree is held as a value and the selection as a path; the
    events are the functions of TreeEvents. */
module TreeWidget {
  import opened Common
  import opened TreeModel
  import opened TreeEvents

  class TreeView {
    var root: Node
    var selected: Option<Path>
    var startY: int

    function State(): TreeState
      reads this
    {
      TreeState(root, selected, startY)
    }

    /** What every event keeps, and the indexes tracking the selection. */
    predicate Valid()
      reads this
    {
      StateOk(State()) && TrackedState(State())
    }

    /** treeview_init: an expanded root without children, nothing
        selected, the first row at 0. */
    constructor Init()
      ensures Valid() && State() == InitState()
    {
      root := Node(true, 0, [], 0);
      selected := None;
      startY := 0;
      InitOk();
    }

    /** treeview_finish: every node below the root is destroyed and the
        whole struct is zeroed, the root's expanded flag included. */
    method Finish()
      modifies this
      ensures root == Node(false, 0, [], 0) && selected == None && startY == 0
    {
      root := Node(false, 0, [], 0);
      selected := None;
      startY := 0;
    }

    /** treeview_event of the single-header revision, with the indexes on
        the way to the selection tracking it after each event. */
    method HandleEvent(ev: TreeEvent) returns (r: WidgetResult)
      requires Valid() && EventOk(State(), ev)
      modifies this
      ensures Valid()
      ensures (State(), r) == Event(old(State()), ev)
      ensures State().selected == EventAsWritten(old(State()), ev).0.selected
    {
      var next := Event(State(), ev);
      root, selected, startY := next.0.root, next.0.selected, next.0.startY;
      r := next.1;
    }

    /** treeview_event of the split revision: the same events without
        TREEVIEW_JUMP, which that revision does not have. */
    method HandleEventSplit(ev: TreeEvent) returns (r: WidgetResult)
      requires Valid() && EventOk(State(), ev) && !ev.Jump?
      modifies this
      ensures Valid()
      ensures (State(), r) == Event(old(State()), ev)
    {
      var next := Event(State(), ev);
      root, selected, startY := next.0.root, next.0.selected, next.0.startY;
      r := next.1;
    }

    /** The scrolling of treeview_redraw in the single-header revision:
        nothing happens without a selection or when the top-left corner is
        out of bounds; otherwise the first row moves the least that brings
        the selected row (the root's own row not counted) on screen. The
        source asserts that every ancestor of the selection is expanded.
        Painting is not part of this model. */
    method Redraw(p: Points)
      requires Valid()
      requires selected.Some? ==> Shown(root, selected.value)
      modifies this`startY
      ensures Valid()
      ensures selected.None? || !InBounds(p, p.x1, p.y1) ==> startY == old(startY)
      ensures selected.Some? && InBounds(p, p.x1, p.y1) ==>
                var row := RowsTo(root, selected.value) - 1;
                startY == Reflow(old(startY), row, p.y2 - p.y1)
                && startY <= row - 1 < startY + (p.y2 - p.y1)
    {
      if selected.None? || !InBounds(p, p.x1, p.y1) {
        return;
      }
      var h := NodeHeightBottomToUp(root, selected.value);
      var selectedHeight := h - 1;
      assert selectedHeight > 0;
      Scroll(selectedHeight, p.y2 - p.y1);
    }

    /** treeview_redraw of the split revision: it has no bounds guard, but
        the painting that follows asserts that the top-left corner is in
        bounds, and before scrolling it asserts that the row counted from
        the selection upwards equals the row node_height finds from the
        root downwards. */
    method RedrawSplit(p: Points)
      requires Valid() && InBounds(p, p.x1, p.y1)
      requires selected.Some? ==> Shown(root, selected.value)
      modifies this`startY
      ensures Valid()
      ensures selected.None? ==> startY == old(startY)
      ensures selected.Some? ==>
                var row := RowsTo(root, selected.value) - 1;
                startY == Reflow(old(startY), row, p.y2 - p.y1)
                && startY <= row - 1 < startY + (p.y2 - p.y1)
    {
      if selected.None? {
        return;
      }
      var h := NodeHeightBottomToUp(root, selected.value);
      var selectedHeight := h - 1;
      var tmp, _ := NodeHeight(root, selected, 0, 0);
      assert selectedHeight == tmp - 1;
      assert selectedHeight > 0;
      Scroll(selectedHeight, p.y2 - p.y1);
    }

    /** The arithmetic both revisions share, with the two assertions that
        follow it. */
    method Scroll(selectedHeight: int, height: int)
      requires Valid() && selectedHeight > 0 && height > 0
      modifies this`startY
      ensures Valid()
      ensures startY == Reflow(old(startY), selectedHeight, height)
      ensures 0 <= startY < selectedHeight
    {
      var forward := selectedHeight - (startY + height);
      var backward := startY - (selectedHeight - 1);
      if backward > 0 {
        startY := startY - backward;
      } else if forward > 0 {
        startY := startY + forward;
      }
      assert startY >= 0;
      assert startY < selectedHeight;
    }
  }
}
