# termbox-widgets in Dafny

termbox-widgets is a small C library with two terminal widgets. The first is a
line-editing text input: a buffer of codepoints, a cursor, editing events, a
redraw that wraps or scrolls, and an export to UTF-8. The second is a tree view:
nodes with children, a selected node, and navigation, insertion and deletion
events. Under both sits a layer of integer layout code: the codepoint sanitiser,
the wrap tests, pen movement and rectangle clamping.

The repository has two revisions of this code, and both are modelled:

- the single header `widgets.h`, written `Header` here;
- the earlier split files `input.c`, `tree.c` and `ui_common.c`, written `Split`
  here. Members that model only this revision end in `Split`.

The revisions differ in three policies:

- the input's capacity is 2000 codepoints in the header and 1999 in the split
  revision;
- the wrap test is `>` in the header and `>=` in the split revision;
- the fallback glyph for an unprintable codepoint is U+FFFD in the header and
  `'?'` in the split revision.

Modules, one per file:

- `Common`: the sanitiser, the wrap predicates, the pen step for one glyph,
  rectangles, string width, and the scroll adjustment that both redraws share.
- `Utf8`: a UTF-8 encoder following section 3 of RFC 3629, and a decoder. The
  decoder is the encoder's partner, so that the export can be shown lossless.
- `Layout`: the wrap-mode layout of the input redraw. `Walk` is the
  specification; the redraw's counting loops are methods proved against it.
- `InputWidget`: `class Input`, whose buffer and cursor are updated in place,
  plus the header's own tests written as methods with their expected values.
- `TreeModel`: the node tree as a value. A node is named by its path of child
  positions. This module holds the height functions, `leaf`, `is_last` and
  `parent_next`.
- `TreeEvents`: `treeview_event`, as written and corrected (see Findings).
- `TreeScenario`: a concrete run of events on which the source frees a node
  that is still in the tree.
- `TreeWidget`: `class TreeView`, whose root, selection and scroll row are
  updated in place by its events and by the redraw's scrolling.
- `TreeDestroy`: the order in which `treeview_node_destroy` frees a subtree.

Environment functions are parameters: `wcwidth` is `Codepoint -> int` and
`iswspace` is `Codepoint -> bool`. The size of the terminal surface is a
parameter too.

## Model

| member | source | states |
|---|---|---|
| Common.Sanitize | widgets.h:176-201 | A newline stays as is with width 0. A tab becomes a space of width 1. A width of 1 or 2 passes through. A negative width shows the codepoint in 1 cell. Width 0 or above 2 shows U+FFFD. When U+FFFD's own width is 1 or 2, every width lies in [0, 2] and is 0 exactly for a newline. |
| Common.SanitizeSplit | ui_common.c:14-34 | Every width lies in [0, 2] and is 0 exactly for a newline. A tab becomes a space of width 1. A width of 1 or 2 passes through. Any other width becomes `'?'` of width 1. |
| Common.WidthOfRange | ui_common.c:14-34 | In either revision, under that revision's assumption on `wcwidth`, the layout width lies in [0, 2] and is 0 exactly for a newline. |
| Common.WrapTestsDiffer | ui_common.c:83-86 | The split revision's `>=` wraps whenever the header's `>` does. The two disagree exactly on a non-newline glyph that ends at the right edge. |
| Common.AdvanceXYIfScroll | widgets.h:261-272 | It reports a wrap exactly when `x > x2 - width` or `width == 0`. On a wrap, x goes to x1 and y rises by exactly 1. Otherwise x and y are unchanged. |
| Common.PlaceBounds | widgets.h:583-590 | The look-ahead guarantee. After any glyph the pen stays within [x1, x2) and either sits at x1 or leaves room for a widest glyph; in the split revision the room is strict. A newline always moves to a new line at x1. |
| Common.AdjustXY | ui_common.c:88-114 | The return value is exactly y's increase and lies in {0, 1, 2}. Width 0 returns 1 and sets x to x1. With width > 0, either x == x1 or x < x2 - WIDGET_CH_MAX. |
| Common.PointsSet | ui_common.c:62-76 | Each coordinate is clamped into [0, width] or [0, height]. In-range coordinates are kept, and so is the order of x1 <= x2 and of y1 <= y2. |
| Common.TotalWidthBounds | ui_common.c:36-53 | A string is at most 2 cells per codepoint wide, and at least 1 per codepoint when it has no newline. |
| Common.TotalWidthAppend | ui_common.c:36-53 | The width of a concatenation is the sum of the widths. |
| Common.StrWidth | ui_common.c:36-53 | The loop returns the sum of the sanitised widths of the codepoints, which lies within [0, 2·length]. |
| Common.Reflow | widgets.h:605-615 | After the adjustment the target row lies in the window and `0 <= start_y < target`. A target already visible leaves start_y unchanged. |
| Common.ReflowMinimal | tree.c:252-260 | No other first row that keeps the target visible is closer to the old one. |
| Utf8.Encode | widgets.h:730-731 | A scalar value takes 1 to 4 bytes, as many as section 3 of RFC 3629 assigns. A surrogate or a value above U+10FFFF becomes the bytes of U+FFFD. |
| Utf8.EncodeAllLength | widgets.h:729-736 | The encoding of n codepoints takes between n and 4n bytes, and is empty only for the empty buffer. |
| Utf8.EncodeAllAscii | widgets.h:1318-1319 | ASCII text takes one byte per codepoint, so 2000 spaces give 2000 bytes. |
| Utf8.EncodeAllAppend | widgets.h:744-746 | Encoding distributes over concatenation. |
| Utf8.DecodeOneEncode | widgets.h:744-746 | The bytes of a scalar value decode back to it, whatever follows them. |
| Utf8.DecodeEncodeAll | widgets.h:716-753 | Round trip: decoding the export of scalar values gives them back. |
| Utf8.DecodeEncodeReplaced | widgets.h:716-753 | A value that is not a scalar value comes back as U+FFFD. |
| Layout.WalkAdvance | widgets.h:580-596 | Each codepoint moves the pen down by 0, 1 or 2 lines. |
| Layout.WalkMonotone | widgets.h:580-596 | A longer prefix never ends on an earlier line. |
| Layout.WalkColumn | widgets.h:580-596 | The pen stays inside the rectangle's columns and, away from x1, leaves room for a widest glyph. |
| Layout.WalkNewLines | widgets.h:580-596 | Every newline in a prefix adds at least one line. |
| Layout.CursorInside | widgets.h:592-595 | `1 <= cur_line <= lines`, and the cursor's column lies inside the rectangle. |
| Layout.StepPen | widgets.h:583-590 | The header's two calls of widget_advance_xy_if_scroll, and the split revision's widget_adjust_xy, move the pen as `Place` says. |
| Layout.WrapLayout | widgets.h:576-597 | The first loop computes the specified line count and the cursor's line and column, with `1 <= cur_line <= lines`. |
| Layout.SkipLines | widgets.h:626-636 | The line count is the walk's after the skipped codepoints, and y moves with it. The loop stops after the first codepoint that reaches line start_y, or at the end of the buffer. It skips nothing when start_y is 0. |
| Layout.PaintLines | widgets.h:648-666 | Before every glyph, the painting loop's pen is inside the rectangle; this is the bounds assertion the loop makes. In the header, the painted cell is inside too when the rectangle is at least 2 columns wide. When the whole buffer fits, the last line reached is the buffer's last. |
| Layout.NarrowRectanglePaintsBelow | widgets.h:648-660 | In a 1-column rectangle, the wrap before a 2-column glyph moves the pen from the only cell to the row below the rectangle, where the glyph is painted. |
| InputWidget.Inserted | widgets.h:381-391 | `arrins`: the new codepoint sits at the cursor, and the prefix and suffix are kept. |
| InputWidget.Removed | widgets.h:447-471 | `arrdel`/`arrdeln`: the span is gone, and the prefix and suffix are kept. |
| InputWidget.RemoveInserted | input.c:82-93 | Deleting before the advanced cursor undoes an insertion. |
| InputWidget.LeftWordTarget | input.c:39-52 | The target lies strictly left of the cursor. It is 0 or a word start, and no word start lies between it and the cursor. |
| InputWidget.RightWordTarget | input.c:65-80 | The target lies strictly right of the cursor. It is the length or a word end, and no word end lies between the cursor and it. |
| InputWidget.LeftWordTargetUnique | input.c:39-52 | Those three properties determine the left-word target. |
| InputWidget.RightWordTargetUnique | input.c:65-80 | Those three properties determine the right-word target. |
| InputWidget.Edited | widgets.h:671-714 | The cursor stays within the new buffer. Only ADD lengthens the buffer, by one. Every event except CLEAR keeps the text before the cursor. |
| InputWidget.EmptyBufferOnlyAdd | widgets.h:1332-1335 | On an empty buffer, no event other than ADD applies. |
| InputWidget.Input.Init | widgets.h:474-483 | The buffer is empty, the cursor and start_y are 0, and the scroll mode is the one given. |
| InputWidget.Input.Finish | widgets.h:485-493 | The widget is zeroed. |
| InputWidget.Input.Add | widgets.h:381-391 | It answers REDRAW exactly when the length is below 2000. It then inserts at the cursor and advances the cursor by one; otherwise nothing changes. |
| InputWidget.Input.AddSplit | input.c:16-26 | It answers REDRAW exactly when the length is below 1999, so the buffer never exceeds 1999. Otherwise as `Add`. |
| InputWidget.Input.Left | widgets.h:393-402 | The cursor moves left by exactly one, with NOOP at 0. The buffer is unchanged. |
| InputWidget.Input.Right | widgets.h:419-428 | The cursor moves right by exactly one, with NOOP at the length. The buffer is unchanged. |
| InputWidget.Input.LeftWord | widgets.h:404-417 | NOOP at 0; otherwise the do-while loop stops exactly at the left-word target. |
| InputWidget.Input.RightWord | widgets.h:430-445 | NOOP at the length; otherwise the loop stops exactly at the right-word target. |
| InputWidget.Input.Delete | widgets.h:447-458 | It removes exactly the codepoint before the cursor and moves the cursor back by one. NOOP at 0. |
| InputWidget.Input.DeleteWord | widgets.h:460-471 | It removes exactly the span from the left-word target to the old cursor, and the cursor becomes the target. NOOP at 0. |
| InputWidget.Input.Clear | widgets.h:678-685 | The buffer ends empty with the cursor at 0. The answer is REDRAW exactly when the buffer was not empty. |
| InputWidget.Input.HandleEvent | widgets.h:671-714 | Every event keeps `0 <= cur <= len <= 2000`. REDRAW means the event applies, and the new buffer and cursor are `Edited`'s. NOOP changes nothing. On an empty buffer, every event except ADD is NOOP. |
| InputWidget.Input.HandleEventSplit | input.c:222-253 | The same, with capacity 1999 and no CLEAR event. |
| InputWidget.Input.DrawWrapped | widgets.h:571-668 | start_y is reset when everything fits and then reflowed around the cursor line. Afterwards `0 <= start_y < lines` and `start_y < cur_line <= start_y + max_height`. The returned rows and cursor cell match the layout, and the cell is in bounds. |
| InputWidget.Input.Draw | widgets.h:494-669 | Nothing happens when the top-left corner is outside the rectangle. Horizontal mode gives one row. Otherwise the wrap-mode results hold for the header revision. |
| InputWidget.Input.DrawSplit | input.c:129-220 | The wrap-mode results for the split revision. |
| InputWidget.Input.Export | widgets.h:716-753 | None exactly for an empty buffer; otherwise the UTF-8 encoding of the buffer. |
| InputWidget.Input.ExportSplit | input.c:255-278 | None exactly for an empty buffer; otherwise the UTF-8 encoding. The write index stays below the allocation of 7 bytes per codepoint plus 1. |
| InputWidget.EncodedSize | widgets.h:729-732 | The measuring loop returns the encoding's length, which lies between n and 4n. |
| InputWidget.EncodeInto | widgets.h:744-746 | The writing loop fills exactly the encoding of the buffer. |
| InputWidget.EncodedPrefix | widgets.h:744-746 | One more codepoint stays within the whole encoding. |
| InputWidget.WriteUtf8 | widgets.h:745 | One codepoint's bytes are written at the given position, and nothing else changes. |
| InputWidget.EmptyEventsSession | widgets.h:1331-1335 | On a fresh input, DELETE through LEFT_WORD all answer NOOP. |
| InputWidget.TypeTest | widgets.h:1337-1342 | Typing "Test" leaves the cursor at 4. |
| InputWidget.TestMotions | widgets.h:1349-1357 | The cursor goes 4, 3, 0, 1, 4. |
| InputWidget.TestEdits | widgets.h:1359-1377 | The cursor goes 3, 4, 3, 5. DELETE leaves "Tesi", and DELETE_WORD leaves an empty export. |
| InputWidget.TestCapacity | widgets.h:1305-1324 | 2000 ADDs succeed and the 2001st is NOOP. The export is 2000 bytes, and after CLEAR it is None. |
| InputWidget.TestEmptyRedraw | widgets.h:1295-1301 | An empty input draws one row in wrap mode and in horizontal mode. |
| TreeModel.NodeAlloc | tree.c:169-184 | No node without a draw callback. Otherwise an expanded node without children that carries the data, has its index in range and takes one row. |
| TreeModel.Replace | tree.c:271-405 | The node at the path becomes the given one. Every proper ancestor keeps its flag, data, index and number of children, and every child off the path is the same subtree (`OffPathSame`, `IndexesSameAlong`). |
| TreeModel.OffPathAt | tree.c:271-405 | The frame in terms of paths. After such an update, a node that is neither above nor below the updated one is the same subtree. An ancestor keeps its fields, and keeps its index when the indexes along the path are the same. |
| TreeModel.KeptOffAncestors | widgets.h:1130-1150 | When the node at the path itself is kept, as in the index walks of JUMP, every node that is not one of its proper ancestors is the same subtree. |
| TreeModel.AlongAt | widgets.h:1130-1150 | Reads back the indexes of the ancestors: 0 after a reset, and the next position of the path after re-tracking. |
| TreeModel.ParentOf | tree.c:379 | `selected->parent`: the node at the path without its last position, which holds the selected node at that position. |
| TreeModel.IsLast | tree.c:7-12 | True exactly when the node has a parent and no next sibling. |
| TreeModel.LeafPath | tree.c:14-22 | The path goes through expanded nodes only and ends at a node that is collapsed or has no children. It is empty exactly when the start is such a node, and it reaches the subtree's bottom row. |
| TreeModel.Height | tree.c:71-86 | A node takes at least one row, and an expanded one at least one more per child. |
| TreeModel.NodeHeightUpToBottom | tree.c:71-86 | The loop returns 1 for a collapsed node, and 1 plus the children's heights for an expanded one. |
| TreeModel.HeightUpIsRowsTo | tree.c:88-109 | Counting the rows from the node upwards gives the same row as counting from the root down. |
| TreeModel.NodeHeightBottomToUp | tree.c:88-109 | The loop returns that bottom-up row, and it equals the top-down row. |
| TreeModel.NodeHeight | tree.c:39-69 | With a shown target, it returns the target's row through both results. Without one, it returns the subtree's height plus the offset and leaves realheight 0. A realheight already set passes through. |
| TreeModel.Retrack | widgets.h:1138-1150 | Every index on the path names the next position. Only the indexes of the path's proper ancestors change; the node at the path and everything off the path are kept. |
| TreeModel.RetrackTracked | widgets.h:1138-1150 | Re-tracking a path that is already tracked changes nothing. |
| TreeModel.ResetPath | widgets.h:1130-1135 | Every proper ancestor of the node at the path gets index 0 (`ZeroAlong`). Nothing else changes: the shape is kept, the node at the path and everything off the path are kept, and indexes stay in range. |
| TreeModel.NextAfter | tree.c:24-37 | The node below a subtree, if any, is a node of the tree other than the root, and it is shown when the start is shown. |
| TreeModel.NextAfterRow | tree.c:24-37 | The next node's row is the node's row plus the rows its subtree takes. |
| TreeModel.NoNextIsBottom | tree.c:24-37 | With no next node, the subtree ends at the tree's last row. |
| TreeModel.NoNextIsLeaf | tree.c:14-22 | A shown node with nothing after it and no open children is `leaf(root)`. |
| TreeModel.ParentNext | tree.c:24-37 | The new selection is a node of the tree other than the root. Only indexes change, and they stay in range. |
| TreeModel.ParentNextTracked | tree.c:24-37 | With tracked indexes, parent_next selects the reference next node. When there is none, it selects the top-level ancestor. |
| TreeEvents.WithChild | widgets.h:912-923 | `arrput`: one more child at the end, and everything else is kept. |
| TreeEvents.ExpandEvent | tree.c:278-284 | The selected node's flag flips and nothing else about it changes. Its ancestors keep their fields and indexes, and the rest of the tree is kept. NOOP, with the state unchanged, exactly when nothing is selected. |
| TreeEvents.ExpandTwice | tree.c:278-284 | EXPAND twice restores the tree. |
| TreeEvents.UpAsWritten | tree.c:285-303 | The shape is unchanged and indexes stay in range. NOOP changes nothing. |
| TreeEvents.DownAsWritten | tree.c:304-320 | The shape and start_y are unchanged. NOOP exactly when nothing is selected. |
| TreeEvents.InsertEvent | tree.c:321-342 | The node becomes the selected node's last child; nothing else changes, in that node or elsewhere in the tree. NOOP, with the state unchanged, exactly with no selection or no node. |
| TreeEvents.InsertParentEvent | tree.c:343-370 | The node becomes the last child of the selection's parent, and the selection stays; the rest of the tree is kept. With no selection, it becomes the root's only child and is selected. NOOP, with the state unchanged, exactly without a node. |
| TreeEvents.JumpEvent | widgets.h:1113-1157 | The target becomes selected, and every index on its path names the next position. The other ancestors of the old selection get index 0. Every node that is an ancestor of neither is the same subtree, and the shape is kept. NOOP exactly without a target. |
| TreeEvents.JumpFrame | widgets.h:1130-1150 | The two index walks of JUMP, composed: the reset along the old selection, then the re-tracking along the target. |
| TreeEvents.DeleteAsWritten | tree.c:371-398 | It removes the parent's child at `parent.index`, whichever child the selection is: the parent becomes `RemoveIndexed(parent)` (that child gone, index kept, or one less when it fell off the end; flag and data kept), its ancestors keep their fields and indexes, every node off the parent's path is kept, and the selection is `DeleteSelection`'s; NOOP, with the state unchanged, exactly when nothing is selected; the invariant of every event is kept. |
| TreeEvents.RemoveIndexed | tree.c:379-386 | The parent keeps its flags and data, loses exactly the child its index names, and its index stays in range: unchanged, or one less when it fell off the end. |
| TreeEvents.DeleteSelection | tree.c:381-393 | The new selection is always a node of the tree. It is empty only when the last top-level node was deleted. |
| TreeEvents.EventAsWritten | tree.c:271-405 | Each event keeps the root expanded, indexes in range, start_y non-negative, and the selection a node below the root. |
| TreeEvents.Retracked | tree.c:271-405 | After re-tracking, the selection's ancestors name it. The selection and the shape are unchanged, and an already tracked state is unchanged. |
| TreeEvents.Event | tree.c:271-405 | Corrected: the same selection, answer and shape as written, and the indexes afterwards track the selection. |
| TreeEvents.DownMovesOneRow | tree.c:304-320 | With tracked indexes, DOWN moves to the next shown row. At `leaf(root)` nothing changes. |
| TreeEvents.UpMovesOneRow | tree.c:285-303 | With tracked indexes, UP moves to the previous shown row. At the first top-level node it keeps the selection and sets start_y to 0. |
| TreeEvents.DeleteRemovesSelected | tree.c:371-398 | With tracked indexes, DELETE removes exactly the selected node. Then it selects the next sibling, else the previous one, else the parent unless it is the root, else nothing. |
| TreeScenario.StaleIndexFreesSelected | tree.c:309-311 | As written, the final DELETE removes C from A's children while the selection and the node it destroys is B. B is still in the tree and selected. |
| TreeScenario.TrackedIndexRemovesSelected | tree.c:379 | Corrected, the same run removes B, the node it destroys, and selects C. |
| TreeWidget.TreeView.Init | tree.c:212-225 | An expanded empty root, no selection, and start_y 0; the invariant holds. |
| TreeWidget.TreeView.Finish | tree.c:227-233 | The widget is zeroed. |
| TreeWidget.TreeView.HandleEvent | widgets.h:1013-1192 | The new state and answer are the corrected event's, and the invariant is kept. The selection is the one the source computes. |
| TreeWidget.TreeView.HandleEventSplit | tree.c:271-405 | The same, without JUMP. |
| TreeWidget.TreeView.Redraw | widgets.h:982-1011 | It does nothing without a selection or with the corner out of bounds. Otherwise start_y is reflowed so that the selected row is on screen. |
| TreeWidget.TreeView.RedrawSplit | tree.c:235-269 | The bottom-up and top-down row counts agree, as the source asserts. start_y is reflowed so that the selected row is on screen. |
| TreeWidget.TreeView.Scroll | tree.c:250-263 | Afterwards `0 <= start_y < selected_height`, as the two assertions say, and start_y is the reflowed row. |
| TreeDestroy.Under | tree.c:187-195 | Each path is placed below child k. |
| TreeDestroy.Destroy | tree.c:186-210 | The loop frees the nodes in the specified order. |
| TreeDestroy.DestroyOrderFreesSubtree | tree.c:197-210 | Exactly the subtree's nodes are freed, each once. Every node is freed after the nodes below it, and the node itself last. |
| TreeDestroy.ChildrenDestroyOrderFrees | tree.c:186-195 | The children's subtrees are freed child by child, each once, children first. |
| TreeDestroy.UnderChildrenFirst | tree.c:187-195 | Freeing below one child keeps the children-first order. |
| TreeDestroy.BlocksChildrenFirst | tree.c:189-191 | Later children's subtrees never hold an earlier child's nodes. |

## Left out

- Painting is not modelled: `tb_set_cell`, `tb_set_cursor`, the tree's `redraw` with its `draw_cb` callbacks and its `skipped` counter, `border_redraw`, `widget_print_str`, and horizontal-mode input painting. Rows, the cursor cell and the bounds assertions are kept.
- `widget_pad_center` works in floating point.
- The width of the terminal surface is a parameter of `PointsSet`.
- `wcwidth` and `iswspace` are parameters. The header needs `1 <= wcwidth(U+FFFD) <= 2` for its width bounds (`FallbackWidthOk`).
- `widget_str_width` decodes UTF-8 with the terminal library's decoder, which is not part of this model. `StrWidth` takes the decoded codepoints.
- The terminal library's encoder is not part of this model; `Utf8.Encode` stands in for it. It writes U+FFFD for values that have no encoding.
- Variadic arguments are part of the event datatypes. A null widget, a null node, a null `points` argument and `malloc` failure are not modelled.
- The tree is a value, and the selection is a path rather than a pointer. Pointer identity, aliasing of a node in two places, cycles and the `parent` back-pointers are not modelled. `treeview_node_add_child`'s refusal of `parent == child` is not modelled for that reason.
- `free_cb` and `free` are not modelled. `TreeDestroy` records only the order in which nodes are freed, as paths.
- TreeWidget.TreeView.Redraw: requires that every ancestor of the selection is expanded. The source asserts this in `node_height_bottom_to_up`. A JUMP into a collapsed subtree can break it, and the redraw then aborts.
- TreeWidget.TreeView.RedrawSplit: requires the rectangle's corner to be in bounds. The split revision has no guard, but `redraw` asserts this. It also requires, as `Redraw` does, that every ancestor of the selection is expanded. The split revision asserts this in `node_height_bottom_to_up` too.
- InputWidget.Input.DrawSplit: requires a rectangle with at least one cell (`x1 < x2` and `y1 < y2`). The split revision's `input_redraw` has no guard. On an empty or inverted rectangle it either fails one of its assertions or returns normally, and those runs are not modelled. For example, with an empty buffer and `x1 == x2` it returns 1 row with the cursor outside the rectangle.
- InputWidget.Input.HandleEventSplit: requires an event other than CLEAR. The split revision's switch has no such case and fails its `assert(0)`.
- TreeWidget.TreeView.HandleEventSplit: requires an event other than JUMP, which the split revision does not have. Like `HandleEvent`, it runs the corrected events. The literal events are `TreeEvents.EventAsWritten`.
- TreeWidget.TreeView.HandleEvent: runs the corrected events (see Findings). The literal events are `TreeEvents.EventAsWritten`.
- InputWidget.Input.Draw: the cursor cell is `None` in horizontal mode, and horizontal-mode scrolling is not modelled.
- InputWidget.Input.Draw: the painted cell is proved inside the rectangle only when the rectangle is at least 2 columns wide. In a 1-column rectangle the header paints a 2-column glyph on the row below the rectangle (`Layout.NarrowRectanglePaintsBelow`).
- The header's test calls `input_redraw` with three arguments against a four-argument declaration (widgets.h:87-88 and 1296). The model's `Draw` takes the rectangle only.
- The header's test expects 24 rows after 2000 spaces in an 80 by 24 rectangle (widgets.h:1310-1311). That depends on `wcwidth(' ')` and is not restated as a session.

## Findings

| source | as written | input that shows it | evidently intended | confidence | as-written member | corrected member |
|---|---|---|---|---|---|---|
| tree.c:309-311 and tree.c:379-395 (also widgets.h:1051-1053 and widgets.h:1166-1182) | DOWN into a first child leaves the parent's `index` as it was. DELETE then removes `parent->nodes[parent->index]` but destroys `selected`. | INSERT_PARENT A, INSERT_PARENT E, INSERT B, INSERT C, DOWN, DOWN, DOWN, DELETE, DOWN, DELETE. The last DELETE removes C from A's children and frees B, which stays in the tree as A's child and is selected again. | Each index on the way to the selection names the child the selection goes through, so DELETE removes and frees the selected node. The corrected events keep that invariant, and with it DELETE removes exactly the selected node (TreeEvents.DeleteRemovesSelected); on the same run it removes B (TreeScenario.TrackedIndexRemovesSelected). | not executed | TreeScenario.StaleIndexFreesSelected | TreeEvents.Event |
