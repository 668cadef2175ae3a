/** treeview_event on the value model of the tree. The `...AsWritten`
    functions follow the source literally, stale indexes included; `Event`
    is the corrected handler: the same event followed by re-tracking the
    indexes along the new selection, which is what the source's use of
    `index` takes for granted. */
module TreeEvents {
  import opened Common
  import opened TreeModel

  datatype TreeEvent =
    | Expand
    | Up
    | Down
    | Insert(node: Option<Node>)
    | InsertParent(node: Option<Node>)
    | Jump(target: Option<Path>)
    | Delete

  /** The fields of struct treeview the events read and write: the root,
      the selected node (by path) and the first row on screen. */
  datatype TreeState = TreeState(root: Node, selected: Option<Path>, startY: int)

  /** treeview_init: an expanded root without children, nothing selected. */
  function InitState(): TreeState
  {
    TreeState(Node(true, 0, [], 0), None, 0)
  }

  /** What every event keeps: the root stays expanded, indexes stay in
      range, the first row is not negative, and the selection is a node
      below the root, or there is none and the root has no children. */
  predicate StateOk(st: TreeState)
  {
    st.root.expanded && IndexesOk(st.root) && 0 <= st.startY
    && (st.selected.None? ==> st.root.children == [])
    && (st.selected.Some? ==> |st.selected.value| > 0 && ValidPath(st.root, st.selected.value))
  }

  /** The indexes along the selection name the positions it goes through. */
  predicate TrackedState(st: TreeState)
  {
    st.selected.Some? ==> Tracked(st.root, st.selected.value)
  }

  /** The event's argument is one the source accepts: inserted nodes keep
      their indexes in range (a node from treeview_node_alloc has index 0),
      and a jump target is a node of the tree other than the root, as the
      source asserts. */
  predicate EventOk(st: TreeState, ev: TreeEvent)
  {
    match ev
    case Insert(Some(c)) => IndexesOk(c)
    case InsertParent(Some(c)) => IndexesOk(c)
    case Jump(Some(t)) => |t| > 0 && ValidPath(st.root, t)
    case _ => true
  }

  lemma InitOk()
    ensures StateOk(InitState()) && TrackedState(InitState())
  {
  }

  /** The node with one more child at the end. */
  function WithChild(n: Node, c: Node): (r: Node)
    requires IndexesOk(n) && IndexesOk(c)
    ensures IndexesOk(r) && |r.children| == |n.children| + 1 && r.children[|n.children|] == c
    ensures r.children[..|n.children|] == n.children
    ensures r.expanded == n.expanded && r.index == n.index && r.data == n.data
  {
    var r := n.(children := n.children + [c]);
    assert forall i :: 0 <= i < |n.children| ==> r.children[i] == n.children[i];
    r
  }

  /** TREEVIEW_EXPAND: the selected node flips between expanded and
      collapsed; nothing selected is a no-op. */
  function ExpandEvent(st: TreeState): (r: (TreeState, WidgetResult))
    requires StateOk(st)
    ensures StateOk(r.0)
    ensures r.1 == Noop <==> st.selected.None?
    ensures r.0.selected == st.selected && r.0.startY == st.startY
    ensures st.selected.None? ==> r.0 == st
    ensures st.selected.Some? ==>
              var s := st.selected.value;
              ValidPath(r.0.root, s)
              && At(r.0.root, s) == At(st.root, s).(expanded := !At(st.root, s).expanded)
              && OffPathSame(st.root, r.0.root, s) && IndexesSameAlong(st.root, r.0.root, s)
  {
    match st.selected
    case None => (st, Noop)
    case Some(s) =>
      var n := At(st.root, s);
      AtIndexesOk(st.root, s);
      ReplaceIndexesOk(st.root, s, n.(expanded := !n.expanded));
      (st.(root := Replace(st.root, s, n.(expanded := !n.expanded))), Redraw)
  }

  /** Expanding twice gives back the tree it started from. */
  lemma ExpandTwice(st: TreeState)
    requires StateOk(st)
    ensures ExpandEvent(ExpandEvent(st).0).0 == st
  {
    if st.selected.Some? {
      var s := st.selected.value;
      var n := At(st.root, s);
      ReplaceTwice(st.root, s, n.(expanded := !n.expanded), n);
      ReplaceSelf(st.root, s);
    }
  }

  /** TREEVIEW_UP as written. When the parent's index is above 0 it is
      moved back by one and the selection goes to the bottom row of the
      child it now names; else the selection goes to the parent unless that
      is the root; at the first top-level node the view scrolls to the top;
      anywhere else at the top level nothing happens. */
  function UpAsWritten(st: TreeState): (r: (TreeState, WidgetResult))
    requires StateOk(st)
    ensures StateOk(r.0)
    ensures Congruent(st.root, r.0.root)
    ensures r.1 == Noop ==> r.0 == st
  {
    CongruentRefl(st.root);
    match st.selected
    case None => (st, Noop)
    case Some(s) =>
      ParentValid(st.root, s);
      var q := Parent(s);
      var parent := At(st.root, q);
      AtIndexesOk(st.root, q);
      if parent.index > 0 then
        var k := parent.index - 1;
        var m := parent.(index := k);
        ReplaceIndexesOk(st.root, q, m);
        CongruentRefl(parent);
        ReplaceCongruent(st.root, q, m);
        var root' := Replace(st.root, q, m);
        PathSnoc(root', q, k);
        var sibling := q + [k];
        var below := LeafPath(At(root', sibling));
        PathAppend(root', sibling, below);
        (TreeState(root', Some(sibling + below), st.startY), Redraw)
      else if |q| > 0 then (st.(selected := Some(q)), Redraw)
      else if s == [0] then (st.(startY := 0), Redraw)
      else (st, Noop)
  }

  /** TREEVIEW_DOWN as written: into the first child of an expanded node
      that has children (its index is left as it was), else to the node
      parent_next gives unless the selection is the last row of the tree.
      It asks for a redraw whenever something is selected. */
  function DownAsWritten(st: TreeState): (r: (TreeState, WidgetResult))
    requires StateOk(st)
    ensures StateOk(r.0)
    ensures Congruent(st.root, r.0.root)
    ensures r.0.startY == st.startY
    ensures r.1 == Noop <==> st.selected.None?
  {
    CongruentRefl(st.root);
    match st.selected
    case None => (st, Noop)
    case Some(s) =>
      var n := At(st.root, s);
      if n.expanded && |n.children| > 0 then
        PathSnoc(st.root, s, 0);
        (st.(selected := Some(s + [0])), Redraw)
      else if s != LeafPath(st.root) then
        var next := ParentNext(st.root, s);
        (TreeState(next.0, Some(next.1), st.startY), Redraw)
      else (st, Redraw)
  }

  /** TREEVIEW_INSERT: the node becomes the last child of the selected node;
      with nothing selected or no node it is a no-op. */
  function InsertEvent(st: TreeState, node: Option<Node>): (r: (TreeState, WidgetResult))
    requires StateOk(st) && (node.Some? ==> IndexesOk(node.value))
    ensures StateOk(r.0)
    ensures r.1 == Noop <==> st.selected.None? || node.None?
    ensures r.0.selected == st.selected && r.0.startY == st.startY
    ensures r.1 == Noop ==> r.0 == st
    ensures r.1 == Redraw ==>
              var s := st.selected.value;
              ValidPath(r.0.root, s)
              && At(r.0.root, s) == At(st.root, s).(children := At(st.root, s).children + [node.value])
              && OffPathSame(st.root, r.0.root, s) && IndexesSameAlong(st.root, r.0.root, s)
  {
    if st.selected.None? || node.None? then (st, Noop)
    else
      var s := st.selected.value;
      var n := At(st.root, s);
      AtIndexesOk(st.root, s);
      var m := WithChild(n, node.value);
      ReplaceIndexesOk(st.root, s, m);
      (st.(root := Replace(st.root, s, m)), Redraw)
  }

  /** TREEVIEW_INSERT_PARENT: the node becomes the last child of the
      selected node's parent, or of the root when nothing is selected, in
      which case it is selected too. */
  function InsertParentEvent(st: TreeState, node: Option<Node>): (r: (TreeState, WidgetResult))
    requires StateOk(st) && (node.Some? ==> IndexesOk(node.value))
    ensures StateOk(r.0)
    ensures r.1 == Noop <==> node.None?
    ensures r.0.startY == st.startY
    ensures st.selected.Some? ==> r.0.selected == st.selected
    ensures r.1 == Noop ==> r.0 == st
    ensures st.selected.None? && node.Some? ==>
              r.0.selected == Some([0]) && r.0.root == st.root.(children := [node.value])
    ensures st.selected.Some? && node.Some? ==>
              var q := Parent(st.selected.value);
              var parent := ParentOf(st.root, st.selected.value);
              ValidPath(r.0.root, q)
              && At(r.0.root, q) == parent.(children := parent.children + [node.value])
              && OffPathSame(st.root, r.0.root, q) && IndexesSameAlong(st.root, r.0.root, q)
  {
    if node.None? then (st, Noop)
    else if st.selected.None? then
      var root' := WithChild(st.root, node.value);
      (TreeState(root', Some([|st.root.children|]), st.startY), Redraw)
    else
      var s := st.selected.value;
      ParentValid(st.root, s);
      var q := Parent(s);
      var parent := At(st.root, q);
      AtIndexesOk(st.root, q);
      var m := WithChild(parent, node.value);
      ReplaceIndexesOk(st.root, q, m);
      var root' := Replace(st.root, q, m);
      assert s == q + [Last(s)];
      PathSnoc(root', q, Last(s));
      (st.(root := root'), Redraw)
  }

  /** TREEVIEW_JUMP (single-header revision only): resets the indexes on the
      way from the old selection to the root, sets every index on the way
      from the root to the target to the position it goes through, and
      selects the target. */
  function JumpEvent(st: TreeState, target: Option<Path>): (r: (TreeState, WidgetResult))
    requires StateOk(st) && (target.Some? ==> |target.value| > 0 && ValidPath(st.root, target.value))
    ensures StateOk(r.0)
    ensures r.1 == Noop <==> target.None?
    ensures r.1 == Noop ==> r.0 == st
    ensures target.Some? ==> r.0.selected == target && Tracked(r.0.root, target.value)
    ensures Congruent(st.root, r.0.root) && r.0.startY == st.startY
    ensures target.Some? && st.selected.Some? ==>
              forall u :: u < st.selected.value && !(u < target.value) ==>
                ValidPath(r.0.root, u) && At(r.0.root, u).index == 0
    ensures target.Some? ==>
              forall u :: ValidPath(st.root, u) && !(u < target.value)
                          && (st.selected.None? || !(u < st.selected.value)) ==>
                ValidPath(r.0.root, u) && At(r.0.root, u) == At(st.root, u)
  {
    CongruentRefl(st.root);
    if target.None? then (st, Noop)
    else
      var t := target.value;
      var reset := if st.selected.Some? then ResetPath(st.root, st.selected.value) else st.root;
      CongruentPaths(st.root, reset, t);
      var root' := Retrack(reset, t);
      TrackedValid(root', t);
      CongruentTrans(st.root, reset, root');
      JumpFrame(st.root, st.selected, t);
      (TreeState(root', Some(t), st.startY), Redraw)
  }

  /** The indexes TREEVIEW_JUMP changes: those of the proper ancestors of
      the old selection that are not on the way to the target become 0;
      every node that is an ancestor of neither is the same subtree. */
  lemma JumpFrame(root: Node, sel: Option<Path>, t: Path)
    requires ValidPath(root, t) && (sel.Some? ==> ValidPath(root, sel.value))
    ensures var reset := if sel.Some? then ResetPath(root, sel.value) else root;
            ValidPath(reset, t)
            && var r := Retrack(reset, t);
            (sel.Some? ==>
               forall u :: u < sel.value && !(u < t) ==> ValidPath(r, u) && At(r, u).index == 0)
            && (forall u :: ValidPath(root, u) && !(u < t) && (sel.None? || !(u < sel.value)) ==>
                  ValidPath(r, u) && At(r, u) == At(root, u))
  {
    var reset := if sel.Some? then ResetPath(root, sel.value) else root;
    CongruentRefl(root);
    CongruentPaths(root, reset, t);
    var r := Retrack(reset, t);
    if sel.Some? {
      var s := sel.value;
      forall u | u < s && !(u < t)
        ensures ValidPath(r, u) && At(r, u).index == 0
      {
        AlongAt(reset, s, u);
        KeptOffAncestors(reset, r, t, u);
      }
    }
    forall u | ValidPath(root, u) && !(u < t) && (sel.None? || !(u < sel.value))
      ensures ValidPath(r, u) && At(r, u) == At(root, u)
    {
      if sel.Some? {
        KeptOffAncestors(root, reset, sel.value, u);
      }
      KeptOffAncestors(reset, r, t, u);
    }
  }

  /** TREEVIEW_DELETE as written: removes the child the parent's index
      names, then selects the child now at that index, else the one before
      it, else the parent unless it is the root, else nothing. The node it
      destroys is the selected one. */
  function DeleteAsWritten(st: TreeState): (r: (TreeState, WidgetResult))
    requires StateOk(st)
    ensures StateOk(r.0)
    ensures r.0.startY == st.startY
    ensures r.1 == Noop <==> st.selected.None?
    ensures r.1 == Noop ==> r.0 == st
    ensures st.selected.Some? ==>
              var q := Parent(st.selected.value);
              var parent := ParentOf(st.root, st.selected.value);
              var k := parent.index;
              k < |parent.children| && ValidPath(r.0.root, q)
              && At(r.0.root, q).children == parent.children[..k] + parent.children[k + 1..]
    ensures st.selected.Some? ==>
              var q := Parent(st.selected.value);
              var parent := ParentOf(st.root, st.selected.value);
              IndexesOk(parent) && |parent.children| > 0 && ValidPath(r.0.root, q)
              && At(r.0.root, q) == RemoveIndexed(parent)
              && OffPathSame(st.root, r.0.root, q) && IndexesSameAlong(st.root, r.0.root, q)
              && r.0.selected == DeleteSelection(r.0.root, q, parent.index)
  {
    match st.selected
    case None => (st, Noop)
    case Some(s) =>
      ParentValid(st.root, s);
      var q := Parent(s);
      var parent := At(st.root, q);
      AtIndexesOk(st.root, q);
      var k := parent.index;
      var m := RemoveIndexed(parent);
      ReplaceIndexesOk(st.root, q, m);
      var root' := Replace(st.root, q, m);
      (TreeState(root', DeleteSelection(root', q, k), st.startY), Redraw)
  }

  /** The selection after DELETE, below the parent at q whose removed child
      was at k: the child now at k, else the one before it, else the
      parent unless it is the root, else nothing. */
  function DeleteSelection(root: Node, q: Path, k: nat): (r: Option<Path>)
    requires ValidPath(root, q) && k <= |At(root, q).children|
    ensures r.Some? ==> |r.value| > 0 && ValidPath(root, r.value)
    ensures r.None? ==> q == [] && At(root, q).children == []
  {
    PathSnoc(root, q, k);
    PathSnoc(root, q, if k > 0 then k - 1 else 0);
    if k < |At(root, q).children| then Some(q + [k])
    else if k > 0 then Some(q + [k - 1])
    else if |q| > 0 then Some(q)
    else None
  }

  /** The parent once DELETE has taken out the child its index names: the
      index stays, or moves to the last child when it fell off the end. */
  function RemoveIndexed(parent: Node): (m: Node)
    requires IndexesOk(parent) && |parent.children| > 0
    ensures IndexesOk(m) && m.expanded == parent.expanded && m.data == parent.data
    ensures parent.index < |parent.children|
    ensures m.children == parent.children[..parent.index] + parent.children[parent.index + 1..]
    ensures m.index == if parent.index < |m.children| then parent.index
                       else if parent.index > 0 then parent.index - 1 else 0
  {
    var k := parent.index;
    var rest := parent.children[..k] + parent.children[k + 1..];
    assert forall i :: 0 <= i < |rest| ==> rest[i] == parent.children[if i < k then i else i + 1];
    var idx := if k < |rest| then k else if k > 0 then k - 1 else k;
    parent.(children := rest, index := idx)
  }

  /** treeview_event as written, for both revisions (the split revision has
      no JUMP). */
  function EventAsWritten(st: TreeState, ev: TreeEvent): (r: (TreeState, WidgetResult))
    requires StateOk(st) && EventOk(st, ev)
    ensures StateOk(r.0)
  {
    match ev
    case Expand => ExpandEvent(st)
    case Up => UpAsWritten(st)
    case Down => DownAsWritten(st)
    case Insert(node) => InsertEvent(st, node)
    case InsertParent(node) => InsertParentEvent(st, node)
    case Jump(target) => JumpEvent(st, target)
    case Delete => DeleteAsWritten(st)
  }

  /** The state with the indexes along its selection re-tracked. */
  function Retracked(st: TreeState): (r: TreeState)
    requires StateOk(st)
    ensures StateOk(r) && TrackedState(r)
    ensures r.selected == st.selected && r.startY == st.startY && Congruent(st.root, r.root)
    ensures TrackedState(st) ==> r == st
  {
    match st.selected
    case None => CongruentRefl(st.root); st
    case Some(s) =>
      RetrackTracked(st.root, s);
      TrackedValid(Retrack(st.root, s), s);
      st.(root := Retrack(st.root, s))
  }

  /** The corrected treeview_event: the event as written, after which every
      index on the way to the selection names the child it goes through.
      The selection and the shape of the tree are the ones the source
      computes; only indexes differ. */
  function Event(st: TreeState, ev: TreeEvent): (r: (TreeState, WidgetResult))
    requires StateOk(st) && EventOk(st, ev)
    ensures StateOk(r.0) && TrackedState(r.0)
    ensures r.0.selected == EventAsWritten(st, ev).0.selected
    ensures r.1 == EventAsWritten(st, ev).1
    ensures Congruent(EventAsWritten(st, ev).0.root, r.0.root)
  {
    var w := EventAsWritten(st, ev);
    (Retracked(w.0), w.1)
  }

  /** With the indexes tracked, TREEVIEW_DOWN moves the selection to the row
      just below it, and does nothing at the tree's last row. */
  lemma DownMovesOneRow(st: TreeState)
    requires StateOk(st) && TrackedState(st) && st.selected.Some?
    requires Shown(st.root, st.selected.value)
    ensures var r := Event(st, Down).0;
            r.selected.Some? && ValidPath(r.root, r.selected.value) && Shown(r.root, r.selected.value)
    ensures st.selected.value == LeafPath(st.root) ==> Event(st, Down).0 == st
    ensures var r := Event(st, Down).0;
            st.selected.value != LeafPath(st.root) ==>
              HeightUp(r.root, r.selected.value) == HeightUp(st.root, st.selected.value) + 1
  {
    var s := st.selected.value;
    var n := At(st.root, s);
    var w := DownAsWritten(st).0;
    var r := Event(st, Down).0;
    assert w == EventAsWritten(st, Down).0;
    CongruentTrans(st.root, w.root, r.root);
    var t := r.selected.value;
    if n.expanded && |n.children| > 0 {
      assert t == s + [0];
      RowsToSnoc(st.root, s, 0);
      ShownSnoc(st.root, s, 0);
    } else if s != LeafPath(st.root) {
      if NextAfter(st.root, s).None? {
        NoNextIsLeaf(st.root, s);
      }
      ParentNextTracked(st.root, s);
      assert t == NextAfter(st.root, s).value;
      NextAfterRow(st.root, s);
    }
    CongruentShown(st.root, r.root, t);
    CongruentRows(st.root, r.root, t);
    CongruentRows(st.root, r.root, s);
    HeightUpIsRowsTo(st.root, s);
    HeightUpIsRowsTo(r.root, t);
  }

  /** With the indexes tracked, TREEVIEW_UP moves the selection to the row
      just above it; at the first row it keeps the selection and scrolls
      the view to the top. */
  lemma UpMovesOneRow(st: TreeState)
    requires StateOk(st) && TrackedState(st) && st.selected.Some?
    requires Shown(st.root, st.selected.value)
    ensures var r := Event(st, Up).0;
            r.selected.Some? && ValidPath(r.root, r.selected.value) && Shown(r.root, r.selected.value)
    ensures st.selected.value == [0] ==>
              Event(st, Up).0.selected == st.selected && Event(st, Up).0.startY == 0
    ensures var r := Event(st, Up).0;
            st.selected.value != [0] ==>
              r.startY == st.startY
              && HeightUp(r.root, r.selected.value) == HeightUp(st.root, st.selected.value) - 1
  {
    var s := st.selected.value;
    var w := UpAsWritten(st).0;
    var r := Event(st, Up).0;
    assert w == EventAsWritten(st, Up).0;
    CongruentTrans(st.root, w.root, r.root);
    ParentValid(st.root, s);
    var q, k := Parent(s), Last(s);
    assert s == q + [k];
    TrackedSnoc(st.root, q, k);
    var t := r.selected.value;
    if k > 0 {
      UpToSibling(st, q, k);
      CongruentShown(w.root, r.root, t);
      CongruentRows(w.root, r.root, t);
    } else if |q| > 0 {
      ShownSnoc(st.root, q, k);
      RowsToSnoc(st.root, q, k);
      assert t == q;
      CongruentShown(st.root, r.root, t);
      CongruentRows(st.root, r.root, t);
    } else {
      assert s == [0];
      CongruentShown(st.root, r.root, t);
    }
    CongruentRows(st.root, r.root, s);
    HeightUpIsRowsTo(st.root, s);
    HeightUpIsRowsTo(r.root, t);
  }

  /** TREEVIEW_UP from a node with a sibling before it, as written: the
      last shown node below that sibling is selected, one row up. */
  lemma UpToSibling(st: TreeState, q: Path, k: nat)
    requires StateOk(st) && TrackedState(st) && st.selected == Some(q + [k]) && k > 0
    requires Shown(st.root, q + [k])
    ensures var w := UpAsWritten(st).0;
            w.selected.Some? && Shown(w.root, w.selected.value)
            && RowsTo(w.root, w.selected.value) == RowsTo(st.root, q + [k]) - 1
  {
    var s := q + [k];
    var w := UpAsWritten(st).0;
    assert Parent(s) == q && Last(s) == k;
    ParentValid(st.root, s);
    TrackedSnoc(st.root, q, k);
    var parent := At(st.root, q);
    assert parent.index == k;
    var root' := Replace(st.root, q, parent.(index := k - 1));
    var sibling := q + [k - 1];
    PathSnoc(root', q, k - 1);
    assert w == TreeState(root', Some(sibling + LeafPath(At(root', sibling))), st.startY);
    CongruentShown(st.root, root', s);
    CongruentRows(st.root, root', s);
    RowsToLastBelow(root', q, k);
  }

  /** The last shown node below the sibling before q + [k] is the row just
      above q + [k]. */
  lemma RowsToLastBelow(n: Node, q: Path, k: nat)
    requires ValidPath(n, q + [k]) && Shown(n, q + [k]) && k > 0
    ensures var sibling := q + [k - 1];
            ValidPath(n, sibling)
            && var t := sibling + LeafPath(At(n, sibling));
            ValidPath(n, t) && Shown(n, t) && RowsTo(n, t) == RowsTo(n, q + [k]) - 1
  {
    RowsToSnoc(n, q, k);
    ShownSnoc(n, q, k);
    var sibling := q + [k - 1];
    PathSnoc(n, q, k - 1);
    var below := LeafPath(At(n, sibling));
    PathAppend(n, sibling, below);
    RowsToAppend(n, sibling, below);
    RowsToSnoc(n, q, k - 1);
    SumHeightsSnoc(At(n, q).children, k - 1);
    ShownSnoc(n, q, k - 1);
    ShownAppend(n, sibling, below);
  }

  /** With the indexes tracked, TREEVIEW_DELETE removes exactly the selected
      node, the one it destroys, and selects the sibling that takes its
      place, else the one before it, else the parent unless that is the
      root, else nothing. */
  lemma DeleteRemovesSelected(st: TreeState)
    requires StateOk(st) && TrackedState(st) && st.selected.Some?
    ensures var s := st.selected.value;
            var w := DeleteAsWritten(st).0;
            var parent := ParentOf(st.root, s);
            ValidPath(w.root, Parent(s))
            && At(w.root, Parent(s)).children == parent.children[..Last(s)] + parent.children[Last(s) + 1..]
            && w.selected == (if Last(s) + 1 < |parent.children| then Some(s)
                              else if Last(s) > 0 then Some(Parent(s) + [Last(s) - 1])
                              else if |s| > 1 then Some(Parent(s))
                              else None)
  {
    var s := st.selected.value;
    ParentValid(st.root, s);
    assert s == Parent(s) + [Last(s)];
    TrackedSnoc(st.root, Parent(s), Last(s));
  }
}
