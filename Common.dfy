/** The integer layer under both widgets: the codepoint sanitiser, the wrap
    predicates, viewport rectangles, the per-glyph pen step and the scroll
    adjustment that keeps one target row inside a window. Both revisions of
    the repository are modelled: the single header (`Header`) and the earlier
    split files (`Split`). */
module Common {

  /** A value of the C type uint32_t holding a codepoint. */
  type Codepoint = c: int | 0 <= c < 0x1_0000_0000

  const NewLine: Codepoint := 10
  const Tab: Codepoint := 9
  const Space: Codepoint := 32
  const QuestionMark: Codepoint := 63
  const Replacement: Codepoint := 0xFFFD

  /** WIDGET_CH_MAX: the widest glyph, in cells. */
  const ChMax := 2

  datatype Option<T> = None | Some(value: T)

  /** What an event handler tells its caller: nothing changed, or repaint. */
  datatype WidgetResult = Noop | Redraw

  /** The single-header revision and the earlier split-file revision. */
  datatype Revision = Header | Split

  /** A codepoint as it is put on the screen, with its width in cells. */
  datatype Glyph = Glyph(cp: Codepoint, width: int)

  /** The rectangle a widget draws into: columns [x1, x2), rows [y1, y2). */
  datatype Points = Points(x1: int, x2: int, y1: int, y2: int)

  /** The range the code relies on for the locale's width of U+FFFD. */
  predicate FallbackWidthOk(wcwidth: Codepoint -> int)
  {
    1 <= wcwidth(Replacement) <= ChMax
  }

  /** widget_uc_sanitize of the single header: a newline is a zero-width
      forced break, a tab shows as a space, a negative width shows the
      codepoint in one cell, and a zero or too large width shows U+FFFD. */
  function Sanitize(uc: Codepoint, wcwidth: Codepoint -> int): (g: Glyph)
    ensures FallbackWidthOk(wcwidth) ==> 0 <= g.width <= ChMax && (g.width == 0 <==> uc == NewLine)
    ensures g.cp == uc || (uc == Tab && g == Glyph(Space, 1)) || g == Glyph(Replacement, wcwidth(Replacement))
    ensures uc != NewLine && uc != Tab && 1 <= wcwidth(uc) <= ChMax ==> g == Glyph(uc, wcwidth(uc))
    ensures uc != NewLine && uc != Tab && wcwidth(uc) < 0 ==> g == Glyph(uc, 1)
    ensures uc != NewLine && uc != Tab && (wcwidth(uc) == 0 || wcwidth(uc) > ChMax) ==> g.cp == Replacement
  {
    var w := wcwidth(uc);
    if uc == NewLine then Glyph(uc, 0)
    else if uc == Tab then Glyph(Space, 1)
    else if w < 0 then Glyph(uc, 1)
    else if w == 0 || w > ChMax then Glyph(Replacement, wcwidth(Replacement))
    else Glyph(uc, w)
  }

  /** widget_uc_sanitize of the split revision: every width that is not 1
      or 2 shows as '?' in one cell. */
  function SanitizeSplit(uc: Codepoint, wcwidth: Codepoint -> int): (g: Glyph)
    ensures 0 <= g.width <= ChMax && (g.width == 0 <==> uc == NewLine)
    ensures g.cp == uc || (uc == Tab && g == Glyph(Space, 1)) || g == Glyph(QuestionMark, 1)
    ensures uc != NewLine && uc != Tab && 1 <= wcwidth(uc) <= ChMax ==> g == Glyph(uc, wcwidth(uc))
    ensures uc != NewLine && uc != Tab && !(1 <= wcwidth(uc) <= ChMax) ==> g == Glyph(QuestionMark, 1)
  {
    var w := wcwidth(uc);
    if uc == NewLine then Glyph(uc, 0)
    else if uc == Tab then Glyph(Space, 1)
    else if w <= 0 || w > ChMax then Glyph(QuestionMark, 1)
    else Glyph(uc, w)
  }

  /** The sanitiser of the given revision. */
  function SanitizeOf(rev: Revision, uc: Codepoint, wcwidth: Codepoint -> int): Glyph
  {
    match rev
    case Header => Sanitize(uc, wcwidth)
    case Split => SanitizeSplit(uc, wcwidth)
  }

  /** The width in cells the layout uses for a codepoint. */
  function WidthOf(rev: Revision, uc: Codepoint, wcwidth: Codepoint -> int): int
  {
    SanitizeOf(rev, uc, wcwidth).width
  }

  /** The environment assumption a revision needs for its widths to lie in
      [0, ChMax]: none for the split revision. */
  predicate WidthsOk(rev: Revision, wcwidth: Codepoint -> int)
  {
    rev == Split || FallbackWidthOk(wcwidth)
  }

  lemma WidthOfRange(rev: Revision, uc: Codepoint, wcwidth: Codepoint -> int)
    requires WidthsOk(rev, wcwidth)
    ensures 0 <= WidthOf(rev, uc, wcwidth) <= ChMax
    ensures WidthOf(rev, uc, wcwidth) == 0 <==> uc == NewLine
  {
  }

  /** widget_should_forcebreak: a zero-width glyph is a newline. */
  predicate ShouldForceBreak(width: int)
  {
    width == 0
  }

  /** widget_should_scroll of the single header: a glyph of this width
      starting at column x would end past max_width, or it is a newline. */
  predicate ShouldScroll(x: int, width: int, maxWidth: int)
  {
    x > maxWidth - width || ShouldForceBreak(width)
  }

  /** widget_should_scroll of the split revision, which wraps one column
      earlier: a glyph that would end exactly at max_width wraps too. */
  predicate ShouldScrollSplit(x: int, width: int, maxWidth: int)
  {
    x >= maxWidth - width || ShouldForceBreak(width)
  }

  predicate ShouldScrollOf(rev: Revision, x: int, width: int, maxWidth: int)
  {
    match rev
    case Header => ShouldScroll(x, width, maxWidth)
    case Split => ShouldScrollSplit(x, width, maxWidth)
  }

  /** The two wrap tests disagree exactly on a glyph that ends at the right
      edge: the header keeps it on the line, the split revision wraps. */
  lemma WrapTestsDiffer(x: int, width: int, maxWidth: int)
    ensures ShouldScroll(x, width, maxWidth) ==> ShouldScrollSplit(x, width, maxWidth)
    ensures ShouldScrollSplit(x, width, maxWidth) && !ShouldScroll(x, width, maxWidth)
            <==> width != 0 && x + width == maxWidth
  {
  }

  /** widget_advance_xy_if_scroll: when a glyph of this width does not fit
      at x, the pen goes to the left edge of the next line. */
  method AdvanceXYIfScroll(x: int, y: int, p: Points, width: int) returns (scrolled: bool, x': int, y': int)
    ensures scrolled <==> x + width > p.x2 || width == 0
    ensures scrolled ==> x' == p.x1 && y' == y + 1
    ensures !scrolled ==> x' == x && y' == y
  {
    scrolled := ShouldScroll(x, width, p.x2);
    if scrolled {
      x', y' := p.x1, y + 1;
    } else {
      x', y' := x, y;
    }
  }

  /** The pen after one glyph: its column and how many lines it moved down. */
  datatype Pen = Pen(x: int, advanced: int)

  /** Placing one glyph in wrap mode, as both revisions do it: wrap before
      the glyph if it does not fit (a newline always wraps and adds no
      width), advance by its width, then wrap again if a widest glyph would
      not fit at the new column (the look-ahead). The split revision stops
      after the wrap for a newline. */
  function Place(rev: Revision, x: int, width: int, p: Points): Pen
  {
    var x0 := if ShouldScrollOf(rev, x, width, p.x2) then p.x1 else x;
    var a0 := if ShouldScrollOf(rev, x, width, p.x2) then 1 else 0;
    if rev == Split && ShouldForceBreak(width) then Pen(x0, a0)
    else
      var x1 := x0 + width;
      if ShouldScrollOf(rev, x1, ChMax, p.x2) then Pen(p.x1, a0 + 1) else Pen(x1, a0)
  }

  /** The look-ahead guarantee: after any glyph the pen stays inside the
      rectangle's columns, and either sits at the left edge or leaves room
      for a widest glyph. A newline always moves the pen to a new line. */
  lemma PlaceBounds(rev: Revision, x: int, width: int, p: Points)
    requires p.x1 < p.x2 && p.x1 <= x && 0 <= width
    ensures 0 <= Place(rev, x, width, p).advanced <= 2
    ensures p.x1 <= Place(rev, x, width, p).x < p.x2
    ensures Place(rev, x, width, p).x == p.x1 || Place(rev, x, width, p).x + ChMax <= p.x2
    ensures rev == Split && Place(rev, x, width, p).x != p.x1 ==> Place(rev, x, width, p).x + ChMax < p.x2
    ensures width == 0 ==> Place(rev, x, width, p).advanced >= 1 && Place(rev, x, width, p).x == p.x1
    ensures rev == Split && width == 0 ==> Place(rev, x, width, p).advanced == 1
  {
  }

  /** widget_adjust_xy of the split revision: moves the pen for one glyph
      and returns exactly how far y moved. */
  method AdjustXY(width: int, p: Points, x: int, y: int) returns (advanced: int, x': int, y': int)
    ensures advanced == y' - y
    ensures Pen(x', advanced) == Place(Split, x, width, p)
    ensures 0 <= advanced <= 2
    ensures width == 0 ==> advanced == 1 && x' == p.x1
    ensures p.x1 < p.x2 && p.x1 <= x && width > 0 ==> x' == p.x1 || x' < p.x2 - ChMax
  {
    x', y' := x, y;
    if ShouldScrollSplit(x', width, p.x2) {
      x' := p.x1;
      y' := y' + 1;
    }
    if ShouldForceBreak(width) {
      advanced := y' - y;
      return;
    }
    x' := x' + width;
    if ShouldScrollSplit(x', ChMax, p.x2) {
      x' := p.x1;
      y' := y' + 1;
    }
    advanced := y' - y;
  }

  /** widget_points_in_bounds: the half-open containment test. */
  predicate InBounds(p: Points, x: int, y: int)
  {
    p.x1 <= x < p.x2 && p.y1 <= y < p.y2
  }

  /** min(max(0, v), hi): v clamped into [0, hi]. */
  function Clamp(v: int, hi: int): (r: int)
    ensures 0 <= hi ==> 0 <= r <= hi
    ensures 0 <= v <= hi ==> r == v
    ensures 0 <= hi && v < 0 ==> r == 0
    ensures v > hi ==> r == hi
  {
    var lo := if v > 0 then v else 0;
    if lo < hi then lo else hi
  }

  /** widget_points_set: the rectangle clamped to a surface of the given
      width and height (the surface size is a parameter here). */
  function PointsSet(x1: int, x2: int, y1: int, y2: int, width: int, height: int): (r: Points)
    ensures 0 <= width ==> 0 <= r.x1 <= width && 0 <= r.x2 <= width
    ensures 0 <= height ==> 0 <= r.y1 <= height && 0 <= r.y2 <= height
    ensures 0 <= x1 <= width ==> r.x1 == x1
    ensures 0 <= x2 <= width ==> r.x2 == x2
    ensures 0 <= y1 <= height ==> r.y1 == y1
    ensures 0 <= y2 <= height ==> r.y2 == y2
    ensures x1 <= x2 ==> r.x1 <= r.x2
    ensures y1 <= y2 ==> r.y1 <= r.y2
  {
    Points(Clamp(x1, width), Clamp(x2, width), Clamp(y1, height), Clamp(y2, height))
  }

  /** The widths of a decoded string, summed over its codepoints. */
  function TotalWidth(rev: Revision, s: seq<Codepoint>, wcwidth: Codepoint -> int): int
  {
    if s == [] then 0 else TotalWidth(rev, s[..|s| - 1], wcwidth) + WidthOf(rev, s[|s| - 1], wcwidth)
  }

  /** A string is at most two cells per codepoint wide, and at least one
      cell per codepoint when it holds no newline. */
  lemma {:induction false} TotalWidthBounds(rev: Revision, s: seq<Codepoint>, wcwidth: Codepoint -> int)
    requires WidthsOk(rev, wcwidth)
    ensures 0 <= TotalWidth(rev, s, wcwidth) <= ChMax * |s|
    ensures (forall i :: 0 <= i < |s| ==> s[i] != NewLine) ==> |s| <= TotalWidth(rev, s, wcwidth)
  {
    if s != [] {
      TotalWidthBounds(rev, s[..|s| - 1], wcwidth);
      WidthOfRange(rev, s[|s| - 1], wcwidth);
    }
  }

  /** The width of a concatenation is the sum of the widths. */
  lemma {:induction false} TotalWidthAppend(rev: Revision, s: seq<Codepoint>, t: seq<Codepoint>, wcwidth: Codepoint -> int)
    ensures TotalWidth(rev, s + t, wcwidth) == TotalWidth(rev, s, wcwidth) + TotalWidth(rev, t, wcwidth)
    decreases |t|
  {
    if t == [] {
      assert s + t == s;
    } else {
      assert (s + t)[..|s + t| - 1] == s + t[..|t| - 1];
      TotalWidthAppend(rev, s, t[..|t| - 1], wcwidth);
    }
  }

  /** widget_str_width, over an already decoded string: the sum of the
      sanitised widths of its codepoints. */
  method StrWidth(rev: Revision, s: seq<Codepoint>, wcwidth: Codepoint -> int) returns (width: int)
    ensures width == TotalWidth(rev, s, wcwidth)
    ensures WidthsOk(rev, wcwidth) ==> 0 <= width <= ChMax * |s|
  {
    width := 0;
    for i := 0 to |s|
      invariant width == TotalWidth(rev, s[..i], wcwidth)
    {
      assert s[..i + 1][..i] == s[..i];
      var glyph := SanitizeOf(rev, s[i], wcwidth);
      width := width + glyph.width;
    }
    assert s[..|s|] == s;
    if WidthsOk(rev, wcwidth) {
      TotalWidthBounds(rev, s, wcwidth);
    }
  }

  /** The scroll adjustment both redraw functions write out: move the first
      visible row (startY) back when the target row is above the window, or
      forward when it is below, so that the target row (counted from 1)
      ends up among the `height` visible rows. */
  function Reflow(startY: int, target: int, height: int): (r: int)
    requires 0 <= startY && 1 <= target && 1 <= height
    ensures 0 <= r < target <= r + height
    ensures startY < target <= startY + height ==> r == startY
  {
    var forward := target - (startY + height);
    var backward := startY - (target - 1);
    if backward > 0 then startY - backward
    else if forward > 0 then startY + forward
    else startY
  }

  function Distance(a: int, b: int): nat
  {
    if a < b then b - a else a - b
  }

  /** Reflow moves the window as little as possible: no other first row that
      keeps the target visible is closer to the old one. */
  lemma ReflowMinimal(startY: int, target: int, height: int, s: int)
    requires 0 <= startY && 1 <= target && 1 <= height
    requires 0 <= s < target <= s + height
    ensures Distance(Reflow(startY, target, height), startY) <= Distance(s, startY)
  {
  }
}
