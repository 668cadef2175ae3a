/** The wrap-mode layout of the input widget's redraw: where each codepoint
    of the buffer lands, how many lines the whole buffer takes, and on which
    line and column the cursor stands. `Walk` is the specification; the
    methods are the counting loops of input_redraw, proved against it. */
module Layout {
  import opened Common

  /** The pen after the first k codepoints of buf, starting at the left
      edge of the first line; `advanced` counts the lines moved down. */
  function Walk(rev: Revision, buf: seq<Codepoint>, k: nat, p: Points, wcwidth: Codepoint -> int): Pen
    requires k <= |buf|
  {
    if k == 0 then Pen(p.x1, 0)
    else
      var prev := Walk(rev, buf, k - 1, p, wcwidth);
      var step := Place(rev, prev.x, WidthOf(rev, buf[k - 1], wcwidth), p);
      Pen(step.x, prev.advanced + step.advanced)
  }

  /** The number of lines the buffer takes. */
  function Lines(rev: Revision, buf: seq<Codepoint>, p: Points, wcwidth: Codepoint -> int): int
  {
    1 + Walk(rev, buf, |buf|, p, wcwidth).advanced
  }

  /** The line the cursor stands on, counted from 1. */
  function CursorLine(rev: Revision, buf: seq<Codepoint>, cur: nat, p: Points, wcwidth: Codepoint -> int): int
    requires cur <= |buf|
  {
    1 + Walk(rev, buf, cur, p, wcwidth).advanced
  }

  /** The column the cursor stands on. */
  function CursorColumn(rev: Revision, buf: seq<Codepoint>, cur: nat, p: Points, wcwidth: Codepoint -> int): int
    requires cur <= |buf|
  {
    Walk(rev, buf, cur, p, wcwidth).x
  }

  /** Every codepoint moves the pen down by zero, one or two lines. */
  lemma {:induction false} WalkAdvance(rev: Revision, buf: seq<Codepoint>, k: nat, p: Points, wcwidth: Codepoint -> int)
    requires k <= |buf|
    ensures 0 <= Walk(rev, buf, k, p, wcwidth).advanced <= 2 * k
  {
    if k > 0 {
      WalkAdvance(rev, buf, k - 1, p, wcwidth);
    }
  }

  /** Lines only accumulate: a longer prefix never ends higher up. */
  lemma {:induction false} WalkMonotone(rev: Revision, buf: seq<Codepoint>, j: nat, k: nat, p: Points, wcwidth: Codepoint -> int)
    requires j <= k <= |buf|
    ensures Walk(rev, buf, j, p, wcwidth).advanced <= Walk(rev, buf, k, p, wcwidth).advanced
    decreases k
  {
    if j < k {
      WalkMonotone(rev, buf, j, k - 1, p, wcwidth);
    }
  }

  /** The pen never leaves the rectangle's columns, and it leaves room for
      a widest glyph unless it is at the left edge. */
  lemma {:induction false} WalkColumn(rev: Revision, buf: seq<Codepoint>, k: nat, p: Points, wcwidth: Codepoint -> int)
    requires k <= |buf| && p.x1 < p.x2 && WidthsOk(rev, wcwidth)
    ensures p.x1 <= Walk(rev, buf, k, p, wcwidth).x < p.x2
    ensures Walk(rev, buf, k, p, wcwidth).x == p.x1 || Walk(rev, buf, k, p, wcwidth).x + ChMax <= p.x2
  {
    if k > 0 {
      WalkColumn(rev, buf, k - 1, p, wcwidth);
      var prev := Walk(rev, buf, k - 1, p, wcwidth);
      WidthOfRange(rev, buf[k - 1], wcwidth);
      PlaceBounds(rev, prev.x, WidthOf(rev, buf[k - 1], wcwidth), p);
    }
  }

  /** Each newline in the prefix opens a line of its own. */
  function NewLines(s: seq<Codepoint>): nat
  {
    if s == [] then 0 else NewLines(s[..|s| - 1]) + (if s[|s| - 1] == NewLine then 1 else 0)
  }

  lemma {:induction false} WalkNewLines(rev: Revision, buf: seq<Codepoint>, k: nat, p: Points, wcwidth: Codepoint -> int)
    requires k <= |buf| && p.x1 < p.x2 && WidthsOk(rev, wcwidth)
    ensures NewLines(buf[..k]) <= Walk(rev, buf, k, p, wcwidth).advanced
  {
    if k > 0 {
      WalkNewLines(rev, buf, k - 1, p, wcwidth);
      WalkColumn(rev, buf, k - 1, p, wcwidth);
      assert buf[..k][..k - 1] == buf[..k - 1];
      var prev := Walk(rev, buf, k - 1, p, wcwidth);
      WidthOfRange(rev, buf[k - 1], wcwidth);
      PlaceBounds(rev, prev.x, WidthOf(rev, buf[k - 1], wcwidth), p);
    }
  }

  /** The cursor's line is one of the buffer's lines, and its column lies
      inside the rectangle. */
  lemma CursorInside(rev: Revision, buf: seq<Codepoint>, cur: nat, p: Points, wcwidth: Codepoint -> int)
    requires cur <= |buf| && p.x1 < p.x2 && WidthsOk(rev, wcwidth)
    ensures 1 <= CursorLine(rev, buf, cur, p, wcwidth) <= Lines(rev, buf, p, wcwidth)
    ensures p.x1 <= CursorColumn(rev, buf, cur, p, wcwidth) < p.x2
  {
    WalkAdvance(rev, buf, cur, p, wcwidth);
    WalkMonotone(rev, buf, cur, |buf|, p, wcwidth);
    WalkColumn(rev, buf, cur, p, wcwidth);
  }

  /** The pen step of the given revision: two calls of
      widget_advance_xy_if_scroll around the glyph's width in the header,
      one call of widget_adjust_xy in the split revision. */
  method StepPen(rev: Revision, x: int, y: int, width: int, p: Points) returns (advanced: int, x': int, y': int)
    ensures Pen(x', advanced) == Place(rev, x, width, p)
    ensures y' == y + advanced
  {
    if rev == Header {
      var before, after;
      before, x', y' := AdvanceXYIfScroll(x, y, p, width);
      x' := x' + width;
      after, x', y' := AdvanceXYIfScroll(x', y', p, ChMax);
      advanced := y' - y;
    } else {
      advanced, x', y' := AdjustXY(width, p, x, y);
    }
  }

  /** The first loop of input_redraw: walks the whole buffer once, counting
      lines and noting the pen's position after the cursor's codepoint. */
  method WrapLayout(rev: Revision, buf: seq<Codepoint>, cur: nat, p: Points, wcwidth: Codepoint -> int)
    returns (lines: int, curX: int, curLine: int)
    requires cur <= |buf|
    ensures lines == Lines(rev, buf, p, wcwidth)
    ensures curLine == CursorLine(rev, buf, cur, p, wcwidth)
    ensures curX == CursorColumn(rev, buf, cur, p, wcwidth)
    ensures 1 <= curLine <= lines
  {
    var x, y := p.x1, 0;
    lines, curX, curLine := 1, p.x1, 1;
    for written := 0 to |buf|
      invariant Pen(x, lines - 1) == Walk(rev, buf, written, p, wcwidth)
      invariant written >= cur ==> curX == CursorColumn(rev, buf, cur, p, wcwidth) && curLine == CursorLine(rev, buf, cur, p, wcwidth)
    {
      var width := WidthOf(rev, buf[written], wcwidth);
      var advanced;
      advanced, x, y := StepPen(rev, x, y, width, p);
      lines := lines + advanced;
      if written + 1 == cur {
        curX, curLine := x, lines;
      }
    }
    WalkAdvance(rev, buf, cur, p, wcwidth);
    WalkMonotone(rev, buf, cur, |buf|, p, wcwidth);
  }

  /** The second loop of input_redraw: walks the codepoints of the lines
      above the window without painting them. The line count is the walk's
      after the codepoints skipped, y moves down with it, and the loop stops
      after the first codepoint that reaches line start_y, or at the end of
      the buffer. */
  method SkipLines(rev: Revision, buf: seq<Codepoint>, p: Points, startY: int, yStart: int, wcwidth: Codepoint -> int)
    returns (written: nat, y: int, line: int)
    ensures written <= |buf| && 0 <= line
    ensures line == Walk(rev, buf, written, p, wcwidth).advanced
    ensures y == yStart + line
    ensures written < |buf| ==> line >= startY
    ensures written > 0 ==> Walk(rev, buf, written - 1, p, wcwidth).advanced < startY
    ensures startY <= 0 ==> written == 0 && line == 0
  {
    written, y, line := 0, yStart, 0;
    var x := p.x1;
    while written < |buf| && line < startY
      invariant written <= |buf| && 0 <= line
      invariant Pen(x, line) == Walk(rev, buf, written, p, wcwidth)
      invariant y == yStart + line
      invariant written > 0 ==> Walk(rev, buf, written - 1, p, wcwidth).advanced < startY
      invariant startY <= 0 ==> written == 0 && line == 0
    {
      var width := WidthOf(rev, buf[written], wcwidth);
      var advanced;
      advanced, x, y := StepPen(rev, x, y, width, p);
      WalkAdvance(rev, buf, written + 1, p, wcwidth);
      line := line + advanced;
      written := written + 1;
    }
  }

  /** A rectangle one column wide and a glyph two columns wide: the
      header's wrap test before the glyph moves the pen from the rectangle's
      only cell to the row below it, where tb_set_cell then paints. */
  method NarrowRectanglePaintsBelow() returns (x: int, y: int)
    ensures InBounds(Points(0, 1, 0, 1), 0, 0)
    ensures x == 0 && y == 1 && !InBounds(Points(0, 1, 0, 1), x, y)
  {
    var scrolled;
    scrolled, x, y := AdvanceXYIfScroll(0, 0, Points(0, 1, 0, 1), 2);
  }

  /** The painting loop of input_redraw without the terminal calls: from
      the first visible codepoint, walks on until the buffer ends or the
      window is full, checking that the pen is inside the rectangle before
      every glyph and, in the header, that the painted cell is too when the
      rectangle is at least a widest glyph wide. Returns the last line
      reached. When the whole buffer fits and nothing was skipped, that is
      the buffer's last line. */
  method PaintLines(rev: Revision, buf: seq<Codepoint>, p: Points, startY: int, lines: int,
                    written0: nat, yStart: int, line0: int, wcwidth: Codepoint -> int)
    returns (line: int)
    requires p.x1 < p.x2 && WidthsOk(rev, wcwidth)
    requires written0 <= |buf| && 0 <= startY && 0 <= line0
    requires p.y1 <= yStart
    requires written0 < |buf| ==> line0 >= startY
    ensures line0 <= line
    ensures (written0 == 0 && line0 == 0 && startY == 0 && lines == Lines(rev, buf, p, wcwidth)
             && yStart == p.y2 - lines) ==> line == lines - 1
  {
    var fits := written0 == 0 && line0 == 0 && startY == 0 && lines == Lines(rev, buf, p, wcwidth) && yStart == p.y2 - lines;
    var written, x, y := written0, p.x1, yStart + line0;
    line := line0;
    while written < |buf|
      invariant written0 <= written <= |buf| && line0 <= line
      invariant y == yStart + line
      invariant written < |buf| ==> line >= startY
      invariant p.x1 <= x < p.x2
      invariant x == p.x1 || x + ChMax <= p.x2
      invariant fits ==> Pen(x, line) == Walk(rev, buf, written, p, wcwidth)
    {
      if line >= lines || y - startY >= p.y2 {
        if fits {
          WalkMonotone(rev, buf, written, |buf|, p, wcwidth);
          assert false;
        }
        break;
      }
      assert InBounds(p, x, y - startY);
      var width := WidthOf(rev, buf[written], wcwidth);
      WidthOfRange(rev, buf[written], wcwidth);
      PlaceBounds(rev, x, width, p);
      var x0, advanced := x, 0;
      if rev == Header {
        // The header paints the glyph after the first wrap test.
        var before, after;
        before, x, y := AdvanceXYIfScroll(x, y, p, width);
        if !ShouldForceBreak(width) && ChMax <= p.x2 - p.x1 {
          assert InBounds(p, x, y - startY);
        }
        x := x + width;
        after, x, y := AdvanceXYIfScroll(x, y, p, ChMax);
        advanced := (if before then 1 else 0) + (if after then 1 else 0);
      } else {
        advanced, x, y := AdjustXY(width, p, x, y);
      }
      assert Pen(x, advanced) == Place(rev, x0, width, p);
      line := line + advanced;
      written := written + 1;
    }
    if fits {
      assert written == |buf|;
    }
  }
}
