/** The line-editing text input: a buffer of codepoints with a cursor, the
    editing events that change them, the wrap-mode redraw's scroll state
    and the UTF-8 export. One class serves both revisions; the members of
    the split revision carry the suffix `Split`. */
module InputWidget {
  import opened Common
  import opened Utf8
  import opened Layout

  /** BUF_MAX: the bound both revisions test the buffer length against. */
  const BufMax := 2000

  /** The events of input_handle_event. INPUT_ADD carries its codepoint in
      the event instead of a variadic argument. */
  datatype InputEvent =
    | InputClear
    | InputDelete
    | InputDeleteWord
    | InputRight
    | InputRightWord
    | InputLeft
    | InputLeftWord
    | InputAdd(ch: Codepoint)

  /** s with ch inserted before position at (arrins). */
  function Inserted(s: seq<Codepoint>, at: nat, ch: Codepoint): (r: seq<Codepoint>)
    requires at <= |s|
    ensures |r| == |s| + 1 && r[at] == ch
    ensures r[..at] == s[..at] && r[at + 1..] == s[at..]
  {
    s[..at] + [ch] + s[at..]
  }

  /** s without the positions from, ..., to - 1 (arrdeln). */
  function Removed(s: seq<Codepoint>, from: nat, to: nat): (r: seq<Codepoint>)
    requires from <= to <= |s|
    ensures |r| == |s| - (to - from)
    ensures r[..from] == s[..from] && r[from..] == s[to..]
  {
    s[..from] + s[to..]
  }

  /** Deleting the codepoint just before the advanced cursor undoes an
      insertion. */
  lemma RemoveInserted(s: seq<Codepoint>, at: nat, ch: Codepoint)
    requires at <= |s|
    ensures Removed(Inserted(s, at, ch), at, at + 1) == s
  {
    assert s == s[..at] + s[at..];
  }

  /** Position i starts a word: a non-space right after a space. */
  predicate IsWordStart(buf: seq<Codepoint>, i: int, isSpace: Codepoint -> bool)
  {
    0 < i < |buf| && !isSpace(buf[i]) && isSpace(buf[i - 1])
  }

  /** Position i ends a word: a space right after a non-space. */
  predicate IsWordEnd(buf: seq<Codepoint>, i: int, isSpace: Codepoint -> bool)
  {
    0 < i < |buf| && isSpace(buf[i]) && !isSpace(buf[i - 1])
  }

  /** Where a left-word motion from c stops: the nearest word start before
      c, or the start of the buffer. */
  function LeftWordTarget(buf: seq<Codepoint>, c: nat, isSpace: Codepoint -> bool): (t: nat)
    requires 0 < c <= |buf|
    ensures t < c
    ensures t == 0 || IsWordStart(buf, t, isSpace)
    ensures forall j :: t < j < c ==> !IsWordStart(buf, j, isSpace)
    decreases c
  {
    if c - 1 == 0 || IsWordStart(buf, c - 1, isSpace) then c - 1
    else LeftWordTarget(buf, c - 1, isSpace)
  }

  /** Where a right-word motion from c stops: the nearest word end after c,
      or the end of the buffer. */
  function RightWordTarget(buf: seq<Codepoint>, c: nat, isSpace: Codepoint -> bool): (t: nat)
    requires c < |buf|
    ensures c < t <= |buf|
    ensures t == |buf| || IsWordEnd(buf, t, isSpace)
    ensures forall j :: c < j < t ==> !IsWordEnd(buf, j, isSpace)
    decreases |buf| - c
  {
    if c + 1 == |buf| || IsWordEnd(buf, c + 1, isSpace) then c + 1
    else RightWordTarget(buf, c + 1, isSpace)
  }

  /** The three properties of LeftWordTarget pin it down. */
  lemma LeftWordTargetUnique(buf: seq<Codepoint>, c: nat, t: nat, isSpace: Codepoint -> bool)
    requires 0 < c <= |buf| && t < c
    requires t == 0 || IsWordStart(buf, t, isSpace)
    requires forall j :: t < j < c ==> !IsWordStart(buf, j, isSpace)
    ensures t == LeftWordTarget(buf, c, isSpace)
  {
  }

  /** The three properties of RightWordTarget pin it down. */
  lemma RightWordTargetUnique(buf: seq<Codepoint>, c: nat, t: nat, isSpace: Codepoint -> bool)
    requires c < t <= |buf|
    requires t == |buf| || IsWordEnd(buf, t, isSpace)
    requires forall j :: c < j < t ==> !IsWordEnd(buf, j, isSpace)
    ensures t == RightWordTarget(buf, c, isSpace)
  {
  }

  /** Whether an event changes anything: INPUT_CLEAR needs a non-empty
      buffer, the leftward events a cursor past the start, the rightward
      ones a cursor before the end, and INPUT_ADD a buffer shorter than the
      capacity. */
  predicate Applies(ev: InputEvent, len: nat, cur: nat, capacity: nat)
  {
    match ev
    case InputClear => len > 0
    case InputDelete => cur > 0
    case InputDeleteWord => cur > 0
    case InputLeft => cur > 0
    case InputLeftWord => cur > 0
    case InputRight => cur < len
    case InputRightWord => cur < len
    case InputAdd(_) => len < capacity
  }

  /** The buffer and cursor an event that applies leaves behind. */
  function Edited(ev: InputEvent, buf: seq<Codepoint>, cur: nat, isSpace: Codepoint -> bool): (r: (seq<Codepoint>, nat))
    requires cur <= |buf| && (ev.InputAdd? || Applies(ev, |buf|, cur, 0))
    ensures r.1 <= |r.0| <= |buf| + 1
    ensures ev.InputAdd? <==> |r.0| == |buf| + 1
    ensures !ev.InputClear? ==> r.0[..Min(cur, r.1)] == buf[..Min(cur, r.1)]
  {
    match ev
    case InputClear => ([], 0)
    case InputDelete => (Removed(buf, cur - 1, cur), cur - 1)
    case InputDeleteWord =>
      var t := LeftWordTarget(buf, cur, isSpace);
      (Removed(buf, t, cur), t)
    case InputLeft => (buf, cur - 1)
    case InputLeftWord => (buf, LeftWordTarget(buf, cur, isSpace))
    case InputRight => (buf, cur + 1)
    case InputRightWord => (buf, RightWordTarget(buf, cur, isSpace))
    case InputAdd(ch) => (Inserted(buf, cur, ch), cur + 1)
  }

  function Min(a: int, b: int): int
  {
    if a < b then a else b
  }

  /** On an empty buffer only INPUT_ADD can change anything. */
  lemma EmptyBufferOnlyAdd(ev: InputEvent, capacity: nat)
    requires !ev.InputAdd?
    ensures !Applies(ev, 0, 0, capacity)
  {
  }

  /** What the wrap-mode redraw leaves behind: the scroll state after the
      reset-and-reflow, with the bounds the redraw asserts; the number of
      rows the input takes; and the cursor cell, which lies inside the
      rectangle. oldStartY is the scroll state before the redraw. */
  predicate WrapDrawn(rev: Revision, buf: seq<Codepoint>, cur: nat, p: Points, wcwidth: Codepoint -> int,
                      oldStartY: int, startY: int, rows: int, cursor: Option<(int, int)>)
    requires cur <= |buf| && 0 <= oldStartY && p.y1 < p.y2
  {
    var maxHeight := p.y2 - p.y1;
    var lines := Lines(rev, buf, p, wcwidth);
    var curLine := CursorLine(rev, buf, cur, p, wcwidth);
    var fits := lines < maxHeight;
    && 1 <= curLine <= lines
    && startY == Reflow(if fits then 0 else oldStartY, curLine, maxHeight)
    && 0 <= startY < lines
    && startY < curLine <= startY + maxHeight
    && rows == (if fits then lines else maxHeight)
    && cursor == Some((CursorColumn(rev, buf, cur, p, wcwidth),
                       if fits then p.y2 - lines + curLine - 1 else p.y1 + curLine - startY - 1))
    && InBounds(p, cursor.value.0, cursor.value.1)
  }

  class Input {
    var buf: seq<Codepoint>
    /** cur_buf: the cursor, a position between codepoints. */
    var cur: nat
    /** start_y: the first line shown in wrap mode. */
    var startY: int
    var scrollHorizontal: bool

    ghost predicate Valid()
      reads this
    {
      cur <= |buf| <= BufMax && 0 <= startY
    }

    /** input_init: an empty buffer, the cursor at 0, no scroll. */
    constructor Init(scrollHorizontal: bool)
      ensures Valid()
      ensures buf == [] && cur == 0 && startY == 0 && this.scrollHorizontal == scrollHorizontal
    {
      buf, cur, startY := [], 0, 0;
      this.scrollHorizontal := scrollHorizontal;
    }

    /** input_finish of the header: the buffer is released and the whole
        widget zeroed. */
    method Finish()
      modifies this
      ensures Valid()
      ensures buf == [] && cur == 0 && startY == 0 && !scrollHorizontal
    {
      buf, cur, startY, scrollHorizontal := [], 0, 0, false;
    }

    /** buf_add of the header: inserts ch at the cursor and moves the cursor
        past it, unless the buffer already holds BUF_MAX codepoints. */
    method Add(ch: Codepoint) returns (r: WidgetResult)
      requires Valid()
      modifies this`buf, this`cur
      ensures Valid()
      ensures r == Redraw <==> |old(buf)| < BufMax
      ensures r == Redraw ==> buf == Inserted(old(buf), old(cur), ch) && cur == old(cur) + 1
      ensures r == Noop ==> buf == old(buf) && cur == old(cur)
    {
      if |buf| + 1 > BufMax {
        return Noop;
      }
      buf := Inserted(buf, cur, ch);
      cur := cur + 1;
      return Redraw;
    }

    /** buf_add of the split revision, whose test rejects one codepoint
        earlier: the buffer holds at most BUF_MAX - 1 codepoints. */
    method AddSplit(ch: Codepoint) returns (r: WidgetResult)
      requires Valid()
      modifies this`buf, this`cur
      ensures Valid()
      ensures |old(buf)| <= BufMax - 1 ==> |buf| <= BufMax - 1
      ensures r == Redraw <==> |old(buf)| < BufMax - 1
      ensures r == Redraw ==> buf == Inserted(old(buf), old(cur), ch) && cur == old(cur) + 1
      ensures r == Noop ==> buf == old(buf) && cur == old(cur)
    {
      if |buf| + 1 >= BufMax {
        return Noop;
      }
      buf := Inserted(buf, cur, ch);
      cur := cur + 1;
      return Redraw;
    }

    /** buf_left: one codepoint to the left, unless at the start. */
    method Left() returns (r: WidgetResult)
      requires Valid()
      modifies this`cur
      ensures Valid()
      ensures r == Redraw <==> old(cur) > 0
      ensures cur == if r == Redraw then old(cur) - 1 else old(cur)
    {
      if cur > 0 {
        cur := cur - 1;
        return Redraw;
      }
      return Noop;
    }

    /** buf_right: one codepoint to the right, unless at the end. */
    method Right() returns (r: WidgetResult)
      requires Valid()
      modifies this`cur
      ensures Valid()
      ensures r == Redraw <==> old(cur) < |buf|
      ensures cur == if r == Redraw then old(cur) + 1 else old(cur)
    {
      if cur < |buf| {
        cur := cur + 1;
        return Redraw;
      }
      return Noop;
    }

    /** buf_leftword: steps left at least once, then on until the start of
        the buffer or the start of a word. */
    method LeftWord(isSpace: Codepoint -> bool) returns (r: WidgetResult)
      requires Valid()
      modifies this`cur
      ensures Valid()
      ensures r == Redraw <==> old(cur) > 0
      ensures cur == if r == Redraw then LeftWordTarget(buf, old(cur), isSpace) else old(cur)
    {
      if cur > 0 {
        ghost var start := cur;
        cur := cur - 1;
        while cur > 0 && (isSpace(buf[cur]) || !isSpace(buf[cur - 1]))
          invariant cur < start
          invariant forall j :: cur < j < start ==> !IsWordStart(buf, j, isSpace)
        {
          cur := cur - 1;
        }
        LeftWordTargetUnique(buf, start, cur, isSpace);
        return Redraw;
      }
      return Noop;
    }

    /** buf_rightword: steps right at least once, then on until the end of
        the buffer or the end of a word. */
    method RightWord(isSpace: Codepoint -> bool) returns (r: WidgetResult)
      requires Valid()
      modifies this`cur
      ensures Valid()
      ensures r == Redraw <==> old(cur) < |buf|
      ensures cur == if r == Redraw then RightWordTarget(buf, old(cur), isSpace) else old(cur)
    {
      var len := |buf|;
      if cur < len {
        ghost var start := cur;
        cur := cur + 1;
        while cur < len && !(isSpace(buf[cur]) && !isSpace(buf[cur - 1]))
          invariant start < cur <= len
          invariant forall j :: start < j < cur ==> !IsWordEnd(buf, j, isSpace)
        {
          cur := cur + 1;
        }
        RightWordTargetUnique(buf, start, cur, isSpace);
        return Redraw;
      }
      return Noop;
    }

    /** buf_del: removes the codepoint before the cursor. */
    method Delete() returns (r: WidgetResult)
      requires Valid()
      modifies this`buf, this`cur
      ensures Valid()
      ensures r == Redraw <==> old(cur) > 0
      ensures r == Redraw ==> cur == old(cur) - 1 && buf == Removed(old(buf), cur, old(cur))
      ensures r == Noop ==> buf == old(buf) && cur == old(cur)
    {
      if cur > 0 {
        cur := cur - 1;
        buf := Removed(buf, cur, cur + 1);
        return Redraw;
      }
      return Noop;
    }

    /** buf_delword: a left-word motion, then removal of everything between
        the new and the old cursor. */
    method DeleteWord(isSpace: Codepoint -> bool) returns (r: WidgetResult)
      requires Valid()
      modifies this`buf, this`cur
      ensures Valid()
      ensures r == Redraw <==> old(cur) > 0
      ensures r == Redraw ==> cur == LeftWordTarget(old(buf), old(cur), isSpace)
                              && buf == Removed(old(buf), cur, old(cur))
      ensures r == Noop ==> buf == old(buf) && cur == old(cur)
    {
      var original := cur;
      r := LeftWord(isSpace);
      if r == Redraw {
        buf := Removed(buf, cur, original);
        return Redraw;
      }
      return Noop;
    }

    /** INPUT_CLEAR of the header: empties the buffer, unless it is empty
        already. */
    method Clear() returns (r: WidgetResult)
      requires Valid()
      modifies this`buf, this`cur
      ensures Valid()
      ensures r == Redraw <==> old(buf) != []
      ensures buf == [] && cur == 0
    {
      if |buf| == 0 {
        return Noop;
      }
      cur := 0;
      buf := [];
      return Redraw;
    }

    /** input_handle_event of the header: dispatches one event. Every event
        keeps the cursor inside the buffer, an event that answers NOOP
        changes nothing, and on an empty buffer every event but INPUT_ADD
        answers NOOP. */
    method HandleEvent(ev: InputEvent, isSpace: Codepoint -> bool) returns (r: WidgetResult)
      requires Valid()
      modifies this`buf, this`cur
      ensures Valid()
      ensures r == Redraw <==> Applies(ev, |old(buf)|, old(cur), BufMax)
      ensures r == Redraw ==> (buf, cur) == Edited(ev, old(buf), old(cur), isSpace)
      ensures r == Noop ==> buf == old(buf) && cur == old(cur)
      ensures old(buf) == [] && !ev.InputAdd? ==> r == Noop
    {
      match ev
      case InputClear => r := Clear();
      case InputDelete => r := Delete();
      case InputDeleteWord => r := DeleteWord(isSpace);
      case InputRight => r := Right();
      case InputRightWord => r := RightWord(isSpace);
      case InputLeft => r := Left();
      case InputLeftWord => r := LeftWord(isSpace);
      case InputAdd(ch) => r := Add(ch);
    }

    /** input_handle_event of the split revision, which has no INPUT_CLEAR
        case: an event outside its switch fails its assertion. */
    method HandleEventSplit(ev: InputEvent, isSpace: Codepoint -> bool) returns (r: WidgetResult)
      requires Valid() && !ev.InputClear?
      modifies this`buf, this`cur
      ensures Valid()
      ensures r == Redraw <==> Applies(ev, |old(buf)|, old(cur), BufMax - 1)
      ensures r == Redraw ==> (buf, cur) == Edited(ev, old(buf), old(cur), isSpace)
      ensures r == Noop ==> buf == old(buf) && cur == old(cur)
      ensures old(buf) == [] && !ev.InputAdd? ==> r == Noop
    {
      match ev
      case InputDelete => r := Delete();
      case InputDeleteWord => r := DeleteWord(isSpace);
      case InputRight => r := Right();
      case InputRightWord => r := RightWord(isSpace);
      case InputLeft => r := Left();
      case InputLeftWord => r := LeftWord(isSpace);
      case InputAdd(ch) => r := AddSplit(ch);
    }

    /** The wrap-mode part of input_redraw, the same in both revisions up
        to the pen step: lay out the buffer, reset start_y when everything
        fits, reflow it around the cursor's line, skip the lines above the
        window and walk the visible ones. */
    method DrawWrapped(rev: Revision, p: Points, wcwidth: Codepoint -> int) returns (rows: int, cursor: Option<(int, int)>)
      requires Valid() && WidthsOk(rev, wcwidth) && InBounds(p, p.x1, p.y1)
      modifies this`startY
      ensures Valid()
      ensures WrapDrawn(rev, buf, cur, p, wcwidth, old(startY), startY, rows, cursor)
    {
      var maxHeight := p.y2 - p.y1;
      var lines, curX, curLine := WrapLayout(rev, buf, cur, p, wcwidth);
      CursorInside(rev, buf, cur, p, wcwidth);
      if lines < maxHeight {
        startY := 0;
      }
      startY := Reflow(startY, curLine, maxHeight);
      assert 0 <= startY < lines;
      var fits := lines < maxHeight;
      var yStart := if fits then p.y2 - lines else p.y1;
      var written, y, line := SkipLines(rev, buf, p, startY, yStart, wcwidth);
      var curY := if fits then y + curLine - 1 else p.y1 + (curLine - (startY + 1));
      assert InBounds(p, curX, curY);
      cursor := Some((curX, curY));
      line := PaintLines(rev, buf, p, startY, lines, written, yStart, line, wcwidth);
      rows := if fits then line + 1 else maxHeight;
    }

    /** input_redraw of the header: nothing for a rectangle whose top-left
        cell is outside it, one row in horizontal mode, otherwise the
        wrap-mode redraw. The cursor is None where it is not modelled. */
    method Draw(p: Points, wcwidth: Codepoint -> int) returns (rows: int, cursor: Option<(int, int)>)
      requires Valid() && FallbackWidthOk(wcwidth)
      modifies this`startY
      ensures Valid()
      ensures !InBounds(p, p.x1, p.y1) ==> rows == 0 && cursor == None && startY == old(startY)
      ensures InBounds(p, p.x1, p.y1) && scrollHorizontal ==> rows == 1 && cursor == None && startY == old(startY)
      ensures InBounds(p, p.x1, p.y1) && !scrollHorizontal ==>
                WrapDrawn(Header, buf, cur, p, wcwidth, old(startY), startY, rows, cursor)
    {
      rows, cursor := 0, None;
      if !InBounds(p, p.x1, p.y1) {
        return;
      }
      if scrollHorizontal {
        rows := 1;
        return;
      }
      rows, cursor := DrawWrapped(Header, p, wcwidth);
    }

    /** input_redraw of the split revision: always the wrap-mode redraw. The
        source has no bounds guard; the model covers rectangles with at
        least one cell, and leaves the empty and inverted ones out. */
    method DrawSplit(p: Points, wcwidth: Codepoint -> int) returns (rows: int, cursor: Option<(int, int)>)
      requires Valid() && InBounds(p, p.x1, p.y1)
      modifies this`startY
      ensures Valid()
      ensures WrapDrawn(Split, buf, cur, p, wcwidth, old(startY), startY, rows, cursor)
    {
      rows, cursor := DrawWrapped(Split, p, wcwidth);
    }

    /** input_buf of the header: None for an empty buffer, otherwise the
        UTF-8 encoding of the buffer, measured first and then written. */
    method Export() returns (r: Option<seq<Byte>>)
      requires Valid()
      ensures r == None <==> buf == []
      ensures r.Some? ==> r.value == EncodeAll(buf)
    {
      if |buf| == 0 {
        return None;
      }
      var size := EncodedSize(buf);
      EncodeAllLength(buf);
      if size == 0 {
        // Every codepoint takes at least one byte.
        assert false;
      }
      var out := new Byte[size + 1];
      EncodeInto(out, buf, size);
      out[size] := 0;
      r := Some(out[..size]);
    }

    /** input_buf of the split revision: None for an empty buffer;
        otherwise one allocation of seven bytes per codepoint plus one,
        which the encoding never fills (the assertion after each codepoint),
        holding the UTF-8 encoding of the buffer. */
    method ExportSplit() returns (r: Option<seq<Byte>>)
      requires Valid()
      ensures r == None <==> buf == []
      ensures r.Some? ==> r.value == EncodeAll(buf)
    {
      var maxCodepointLen := 7;
      var len := |buf|;
      var size := maxCodepointLen * len + 1;
      if len == 0 {
        return None;
      }
      var out := new Byte[size];
      var index := 0;
      for i := 0 to len
        invariant index == |EncodeAll(buf[..i])| <= 4 * i
        invariant out[..index] == EncodeAll(buf[..i])
      {
        EncodeAllSnoc(buf, i);
        var n := WriteUtf8(out, index, buf[i]);
        index := index + n;
        assert index < size;
      }
      assert buf[..len] == buf;
      out[index] := 0;
      r := Some(out[..index]);
    }
  }

  /** The measuring loop of input_buf: the number of bytes the encoding
      of s takes. */
  method EncodedSize(s: seq<Codepoint>) returns (size: nat)
    ensures size == |EncodeAll(s)|
    ensures |s| <= size <= 4 * |s|
  {
    size := 0;
    for i := 0 to |s|
      invariant size == |EncodeAll(s[..i])|
    {
      EncodeAllSnoc(s, i);
      size := size + |Encode(s[i])|;
    }
    assert s[..|s|] == s;
    EncodeAllLength(s);
  }

  /** The writing loop of input_buf: codepoints are encoded one after the
      other while fewer than size bytes are written. */
  method EncodeInto(out: array<Byte>, s: seq<Codepoint>, size: nat)
    requires size == |EncodeAll(s)| <= out.Length
    modifies out
    ensures out[..size] == EncodeAll(s)
  {
    var i, k := 0, 0;
    EncodeAllLength(s);
    while i < size && k < |s|
      invariant 0 <= k <= |s| && 0 <= i <= size
      invariant out[..i] == EncodeAll(s[..k])
      invariant k < |s| ==> i < size
      decreases |s| - k
    {
      EncodedPrefix(s, k);
      var n := WriteUtf8(out, i, s[k]);
      i, k := i + n, k + 1;
    }
    assert s[..k] == s;
  }

  /** Encoding one more codepoint of s extends the encoding of the prefix
      by that codepoint's bytes, and a proper prefix encodes to strictly
      fewer bytes than s. */
  lemma EncodedPrefix(s: seq<Codepoint>, k: nat)
    requires k < |s|
    ensures EncodeAll(s[..k + 1]) == EncodeAll(s[..k]) + Encode(s[k])
    ensures |EncodeAll(s[..k + 1])| <= |EncodeAll(s)|
    ensures k + 1 < |s| ==> |EncodeAll(s[..k + 1])| < |EncodeAll(s)|
  {
    EncodeAllSnoc(s, k);
    EncodeAllAppend(s[..k + 1], s[k + 1..]);
    EncodeAllLength(s[k + 1..]);
    assert s[..k + 1] + s[k + 1..] == s;
  }

  /** The bytes of one codepoint written at position at, as the terminal
      library's encoder does it; nothing else in the array changes. */
  method WriteUtf8(out: array<Byte>, at: nat, c: Codepoint) returns (n: nat)
    requires at + |Encode(c)| <= out.Length
    modifies out
    ensures n == |Encode(c)|
    ensures out[..at] == old(out[..at])
    ensures out[at..at + n] == Encode(c)
    ensures out[..at + n] == old(out[..at]) + Encode(c)
    ensures forall j :: at + n <= j < out.Length ==> out[j] == old(out[j])
  {
    var bytes := Encode(c);
    n := |bytes|;
    for j := 0 to n
      invariant out[..at] == old(out[..at])
      invariant out[at..at + j] == bytes[..j]
      invariant forall m :: at + n <= m < out.Length ==> out[m] == old(out[m])
    {
      out[at + j] := bytes[j];
    }
    assert out[..at + n] == out[..at] + out[at..at + n];
  }

  /** iswspace in the C locale: space, tab, newline, vertical tab, form
      feed and carriage return. */
  predicate CSpace(c: Codepoint)
  {
    c == Space || 9 <= c <= 13
  }

  /** The header's own test on a fresh input: every event from
      INPUT_DELETE up to INPUT_ADD answers NOOP on the empty buffer. */
  method EmptyEventsSession() returns (results: seq<WidgetResult>)
    ensures results == [Noop, Noop, Noop, Noop, Noop, Noop]
  {
    var input := new Input.Init(false);
    results := [];
    var events := [InputDelete, InputDeleteWord, InputRight, InputRightWord, InputLeft, InputLeftWord];
    for i := 0 to |events|
      invariant input.Valid() && input.buf == [] && input.cur == 0
      invariant results == seq(i, _ => Noop)
    {
      var r := input.HandleEvent(events[i], CSpace);
      results := results + [r];
    }
  }

  /** A fresh input after typing "Test" through input_handle_event. */
  method TypeTest() returns (input: Input)
    ensures fresh(input) && input.Valid()
    ensures input.buf == [84, 101, 115, 116] && input.cur == 4
  {
    input := new Input.Init(false);
    var r := input.HandleEvent(InputAdd(84), CSpace);
    r := input.HandleEvent(InputAdd(101), CSpace);
    r := input.HandleEvent(InputAdd(115), CSpace);
    r := input.HandleEvent(InputAdd(116), CSpace);
  }

  /** The header's own test of the motions on "Test": the cursor after
      LEFT, LEFT_WORD, RIGHT and RIGHT_WORD. */
  method TestMotions() returns (cursors: seq<nat>)
    ensures cursors == [4, 3, 0, 1, 4]
  {
    var input := TypeTest();
    cursors := [input.cur];
    var r := input.HandleEvent(InputLeft, CSpace);
    cursors := cursors + [input.cur];
    WordTargetsOnTest();
    r := input.HandleEvent(InputLeftWord, CSpace);
    cursors := cursors + [input.cur];
    r := input.HandleEvent(InputRight, CSpace);
    cursors := cursors + [input.cur];
    r := input.HandleEvent(InputRightWord, CSpace);
    cursors := cursors + [input.cur];
  }

  /** The word motions the two tests on "Test" and "Tesit" take. */
  lemma WordTargetsOnTest()
    ensures LeftWordTarget([84, 101, 115, 116], 3, CSpace) == 0
    ensures RightWordTarget([84, 101, 115, 116], 1, CSpace) == 4
    ensures RightWordTarget([84, 101, 115, 105, 116], 3, CSpace) == 5
    ensures LeftWordTarget([84, 101, 115, 105], 4, CSpace) == 0
  {
  }

  /** The rest of the header's test on "Test": LEFT, ADD 'i', LEFT and
      RIGHT_WORD leave the cursor at 3, 4, 3 and 5; DELETE leaves "Tesi";
      DELETE_WORD empties the buffer, so the export is None. */
  method TestEdits() returns (cursors: seq<nat>, afterDelete: seq<Codepoint>, exported: Option<seq<Byte>>)
    ensures cursors == [3, 4, 3, 5]
    ensures afterDelete == [84, 101, 115, 105]
    ensures exported == None
  {
    var input := TypeTest();
    cursors := InsertBeforeLast(input);
    var r := input.HandleEvent(InputDelete, CSpace);
    afterDelete := input.buf;
    assert afterDelete == [84, 101, 115, 105];
    WordTargetsOnTest();
    r := input.HandleEvent(InputDeleteWord, CSpace);
    exported := input.Export();
  }

  /** The first half of the edits test: "i" typed before the last letter of
      "Test", then LEFT and RIGHT_WORD. */
  method InsertBeforeLast(input: Input) returns (cursors: seq<nat>)
    requires input.Valid() && input.buf == [84, 101, 115, 116] && input.cur == 4
    modifies input
    ensures input.Valid() && input.buf == [84, 101, 115, 105, 116] && input.cur == 5
    ensures cursors == [3, 4, 3, 5]
  {
    var r := input.HandleEvent(InputLeft, CSpace);
    cursors := [input.cur];
    r := input.HandleEvent(InputAdd(105), CSpace);
    var test: seq<Codepoint> := [84, 101, 115, 105, 116];
    assert input.buf == test;
    cursors := cursors + [input.cur];
    r := input.HandleEvent(InputLeft, CSpace);
    cursors := cursors + [input.cur];
    WordTargetsOnTest();
    r := input.HandleEvent(InputRightWord, CSpace);
    cursors := cursors + [input.cur];
  }

  /** The header's capacity test: 2000 spaces are accepted, the 2001st is
      not, the export is 2000 bytes long, and after INPUT_CLEAR the export
      is None again. */
  method TestCapacity() returns (accepted: nat, last: WidgetResult, exported: Option<seq<Byte>>, afterClear: Option<seq<Byte>>)
    ensures accepted == BufMax && last == Noop
    ensures exported.Some? && |exported.value| == BufMax
    ensures afterClear == None
  {
    var input := new Input.Init(false);
    accepted := 0;
    while accepted < BufMax
      invariant input.Valid() && accepted <= BufMax
      invariant |input.buf| == input.cur == accepted
      invariant forall i :: 0 <= i < |input.buf| ==> input.buf[i] == Space
    {
      var r := input.HandleEvent(InputAdd(Space), CSpace);
      if r == Redraw {
        accepted := accepted + 1;
      }
    }
    last := input.HandleEvent(InputAdd(Space), CSpace);
    exported := input.Export();
    EncodeAllAscii(input.buf);
    var r := input.HandleEvent(InputClear, CSpace);
    afterClear := input.Export();
  }

  /** The header's redraw test on an empty input in an 80 by 24 rectangle:
      one row in wrap mode and in horizontal mode. */
  method TestEmptyRedraw(wcwidth: Codepoint -> int) returns (wrapRows: int, horizontalRows: int)
    requires FallbackWidthOk(wcwidth)
    ensures wrapRows == 1 && horizontalRows == 1
  {
    var p := PointsSet(0, 80, 0, 24, 80, 24);
    var input := new Input.Init(false);
    var cursor;
    wrapRows, cursor := input.Draw(p, wcwidth);
    input.scrollHorizontal := true;
    horizontalRows, cursor := input.Draw(p, wcwidth);
  }
}
