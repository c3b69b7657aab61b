/**
 * `print_buffer`: the scroll offset, the drawn part of the text and the cursor.
 * Escape sequences, padding rows and the box around the text are left out; what
 * is drawn of the text itself is kept as a list of marks.
 */
module Views {
  import opened Bytes
  import opened GapModel
  import opened GapBuffers
  import opened Highlights
  import opened Layout

  datatype Mark = Margin | Glyph(ch: byte, lit: bool) | Wrap

  /** The first row shown, when the cursor is on row `row` of the text. */
  function ScrollTop(row: nat): nat {
    row - Min(row, HALF_ROWS)
  }

  ghost predicate OnScreen(top: nat, row: nat) {
    top <= row < top + ROWS
  }

  /** What byte `k` puts on a screen that starts at row `top`. */
  ghost function Drawn(t: Text, sel: Span, top: nat, k: nat): seq<Mark>
    requires k < |t|
  {
    var p, q := At(t, k), At(t, k + 1);
    if !OnScreen(top, p.row) then []
    else
      (if p.col == 0 then [Margin] else [])
      + [Glyph(t[k], Selects(sel, k))]
      + (if t[k] != NEWLINE && p.row < q.row then [Wrap] else [])
  }

  /** The full scan of the first `n` bytes. */
  ghost function Scan(t: Text, sel: Span, top: nat, n: nat): seq<Mark>
    requires n <= |t|
  {
    if n == 0 then [] else Scan(t, sel, top, n - 1) + Drawn(t, sel, top, n - 1)
  }

  lemma BelowDrawsNothing(t: Text, sel: Span, top: nat, k: nat, j: nat)
    requires k <= j < |t| && top + ROWS <= At(t, k).row
    ensures Drawn(t, sel, top, j) == []
  {
    if k < j {
      Monotone(t, k, j);
    }
  }

  lemma AppendNothing(a: seq<Mark>)
    ensures a + [] == a
  {
  }

  /** From a byte below the screen on, nothing more is drawn. */
  lemma {:induction false} NothingBelow(t: Text, sel: Span, top: nat, k: nat, n: nat)
    requires k <= n <= |t| && top + ROWS <= At(t, k).row
    ensures Scan(t, sel, top, n) == Scan(t, sel, top, k)
  {
    if k < n {
      NothingBelow(t, sel, top, k, n - 1);
      BelowDrawsNothing(t, sel, top, k, n - 1);
      AppendNothing(Scan(t, sel, top, n - 1));
    }
  }

  // ---- one turn of the drawing loop, on values ----

  /** What the loop carries along: the frame, where it is in the layout, and whether the margin is due. */
  datatype Canvas = Canvas(frame: seq<Mark>, pos: Pos, margin: bool)

  /** The loop has drawn the first `k` bytes of `t`. */
  ghost predicate DrawnTo(t: Text, sel: Span, top: nat, k: nat, canvas: Canvas) {
    var p := canvas.pos;
    && k <= |t| && p == At(t, k) && canvas.frame == Scan(t, sel, top, k)
    && (p.row < top ==> canvas.margin)
    && (OnScreen(top, p.row) ==> (canvas.margin <==> p.col == 0))
  }

  function MarginAfter(visible: bool, margin: bool, opens: bool): bool {
    if visible then opens else margin
  }

  /** One byte and its marks further. */
  function Onto(canvas: Canvas, b: byte, visible: bool, marks: seq<Mark>): Canvas {
    var q := Step(canvas.pos, b);
    Canvas(canvas.frame + marks, q, MarginAfter(visible, canvas.margin, canvas.pos.row < q.row))
  }

  lemma DrawsOne(t: Text, sel: Span, top: nat, k: nat, canvas: Canvas)
    requires k < |t| && DrawnTo(t, sel, top, k, canvas)
    ensures DrawnTo(t, sel, top, k + 1,
                    Onto(canvas, t[k], OnScreen(top, canvas.pos.row), Drawn(t, sel, top, k)))
  {
  }

  /**
   * The first row of the text to show, from the row of the cursor, counted over the
   * bytes before it: the cursor comes to be ten rows below, or as many as there are.
   */
  method FirstRow(b: GapBuffer) returns (top: nat)
    requires b.Valid()
    ensures var row := At(b.Model().Content(), b.gapStart).row; top + Min(row, 10) == row
  {
    ghost var t := b.Model().Content();
    var row: nat, col: nat := 0, 0;
    for i := 0 to b.gapStart
      invariant t == b.Model().Content() && At(t, i) == Pos(row, col)
    {
      assert b.data[i] == t[i];
      if b.data[i] == NEWLINE {
        row := row + 1;
        col := 0;
      } else if b.data[i] == TAB {
        col := col + (8 - col % 8);
      } else {
        col := col + 1;
      }
      if col >= 60 {
        row := row + 1;
        col := 0;
      }
    }
    top := 0;
    if row >= HALF_ROWS {
      top := row - HALF_ROWS;
    }
  }

  /** The logical offset that the raw position `i` stands for; the cursor inside the gap. */
  function Logical(g: Gap, i: nat): (k: nat)
    requires g.Valid() && i <= |g.data|
    ensures k <= |g.Content()|
  {
    if i <= g.start then i else if i < g.end then g.start else i - (g.end - g.start)
  }

  lemma LogicalByte(g: Gap, i: nat)
    requires g.Valid() && i < |g.data|
    ensures if g.start <= i < g.end then Logical(g, i + 1) == Logical(g, i)
            else Logical(g, i + 1) == Logical(g, i) + 1 <= |g.Content()|
                 && g.data[i] == g.Content()[Logical(g, i)]
  {
  }

  /** Where the cursor is drawn once the loop has passed raw position `i`; (0, 0) before. */
  ghost predicate CursorSeen(g: Gap, top: nat, i: nat, r: int, c: nat)
    requires g.Valid()
  {
    var p := At(g.Content(), g.start);
    if i <= g.start then r == 0 && c == 0 else r == p.row - top && c == p.col
  }

  /** The drawing loop at raw position `i`. */
  ghost predicate Scanned(g: Gap, sel: Span, top: nat, i: nat, canvas: Canvas) {
    && g.Valid() && i <= |g.data|
    && DrawnTo(g.Content(), sel, top, Logical(g, i), canvas)
  }

  lemma ScanStarts(g: Gap, sel: Span, top: nat)
    requires g.Valid()
    ensures Scanned(g, sel, top, 0, Canvas([], Pos(0, 0), true))
  {
  }

  lemma CursorMet(g: Gap, sel: Span, top: nat, i: nat, canvas: Canvas)
    requires Scanned(g, sel, top, i, canvas) && i == g.start
    ensures canvas.pos == At(g.Content(), g.start)
  {
  }

  lemma SkipsGap(g: Gap, sel: Span, top: nat, i: nat, canvas: Canvas)
    requires Scanned(g, sel, top, i, canvas) && g.start <= i < g.end
    ensures Scanned(g, sel, top, i + 1, canvas)
  {
    LogicalByte(g, i);
  }

  lemma RawByte(g: Gap, sel: Span, top: nat, i: nat, canvas: Canvas)
    requires Scanned(g, sel, top, i, canvas) && i < |g.data| && !(g.start <= i < g.end)
    ensures var k := if i < g.start then i else i - (g.end - g.start); var p := canvas.pos;
            && k == Logical(g, i) < |g.Content()| && g.data[i] == g.Content()[k]
            && p == At(g.Content(), k) && At(g.Content(), k + 1) == Step(p, g.data[i])
            && (OnScreen(top, p.row) ==> (canvas.margin <==> p.col == 0))
  {
    LogicalByte(g, i);
  }

  lemma DrawsRaw(g: Gap, sel: Span, top: nat, i: nat, canvas: Canvas, next: Canvas)
    requires Scanned(g, sel, top, i, canvas) && i < |g.data| && !(g.start <= i < g.end)
    requires Logical(g, i) < |g.Content()|
    requires next == Onto(canvas, g.data[i], OnScreen(top, canvas.pos.row),
                          Drawn(g.Content(), sel, top, Logical(g, i)))
    ensures Scanned(g, sel, top, i + 1, next)
  {
    LogicalByte(g, i);
    DrawsOne(g.Content(), sel, top, Logical(g, i), canvas);
  }

  /** Below the screen, as at the end of the text, the frame is complete. */
  lemma FrameComplete(t: Text, sel: Span, top: nat, k: nat, canvas: Canvas)
    requires DrawnTo(t, sel, top, k, canvas) && (k == |t| || top + ROWS <= canvas.pos.row)
    ensures canvas.frame == Scan(t, sel, top, |t|)
  {
    if k < |t| {
      NothingBelow(t, sel, top, k, |t|);
    }
  }

  /** So it is where the loop ends. */
  lemma ScanComplete(g: Gap, sel: Span, top: nat, i: nat, canvas: Canvas)
    requires Scanned(g, sel, top, i, canvas) && (i == |g.data| || top + ROWS <= canvas.pos.row)
    ensures canvas.frame == Scan(g.Content(), sel, top, |g.Content()|)
  {
    FrameComplete(g.Content(), sel, top, Logical(g, i), canvas);
  }

  /** The cursor after the loop: where the layout puts it, or never met. */
  ghost predicate CursorDrawn(g: Gap, top: nat, r: int, c: nat)
    requires g.Valid()
  {
    var p := At(g.Content(), g.start);
    if g.start < |g.data| then r == p.row - top && c == p.col else r == 0 && c == 0
  }

  lemma CursorComplete(g: Gap, top: nat, i: nat, r: int, c: nat)
    requires g.Valid() && CursorSeen(g, top, i, r, c) && (i == |g.data| || g.start < i <= |g.data|)
    ensures CursorDrawn(g, top, r, c)
  {
  }

  /**
   * The frame and the cursor. The loop runs over the raw storage, skips the gap
   * and stops early below the screen; what it draws is the full scan of the
   * text. The cursor is where the layout puts it, unless nothing is stored at
   * or after the gap: then the loop never meets it.
   */
  method PrintBuffer(b: GapBuffer, hl: Span)
    returns (frame: seq<Mark>, top: nat, cursorRow: int, cursorCol: nat)
    requires b.Valid()
    ensures var t := b.Model().Content(); var p := At(t, b.gapStart);
            top + Min(p.row, 10) == p.row && frame == Scan(t, hl, top, |t|)
    ensures CursorDrawn(b.Model(), top, cursorRow, cursorCol)
  {
    top := FirstRow(b);
    frame, cursorRow, cursorCol := DrawAll(b, b.Model(), hl, top);
  }

  /** The drawing pass. */
  method DrawAll(b: GapBuffer, ghost g: Gap, hl: Span, top: nat)
    returns (frame: seq<Mark>, cursorRow: int, cursorCol: nat)
    requires b.Valid() && g == b.Model()
    ensures frame == Scan(g.Content(), hl, top, |g.Content()|) && CursorDrawn(g, top, cursorRow, cursorCol)
  {
    var canvas := Canvas([], Pos(0, 0), true);
    cursorRow, cursorCol := 0, 0;
    ScanStarts(g, hl, top);
    var i := 0;
    while i < b.data.Length
      invariant i <= b.data.Length && b.Model() == g
      invariant Scanned(g, hl, top, i, canvas) && CursorSeen(g, top, i, cursorRow, cursorCol)
    {
      canvas, cursorRow, cursorCol := Turn(b, g, hl, top, i, canvas, cursorRow, cursorCol);
      i := i + 1;
      if i > b.gapEnd && canvas.pos.row >= top + ROWS && i - 1 > b.gapStart {
        break;
      }
    }
    ScanComplete(g, hl, top, i, canvas);
    CursorComplete(g, top, i, cursorRow, cursorCol);
    frame := canvas.frame;
  }

  /** One turn of the loop: the cursor is met, the gap skipped, a byte outside it drawn. */
  method Turn(b: GapBuffer, ghost g: Gap, hl: Span, top: nat, i: nat, canvas: Canvas, r: int, c: nat)
    returns (canvas': Canvas, r': int, c': nat)
    requires b.Valid() && g == b.Model() && i < b.data.Length
    requires Scanned(g, hl, top, i, canvas) && CursorSeen(g, top, i, r, c)
    ensures Scanned(g, hl, top, i + 1, canvas') && CursorSeen(g, top, i + 1, r', c')
  {
    canvas', r', c' := canvas, r, c;
    if i == b.gapStart {
      CursorMet(g, hl, top, i, canvas);
      r' := canvas.pos.row - top;
      c' := canvas.pos.col;
    }
    if b.gapStart <= i < b.gapEnd {
      SkipsGap(g, hl, top, i, canvas);
    } else {
      canvas' := ScanByte(b, hl, top, i, canvas);
    }
  }

  /** The drawing of one stored byte, its highlight taken from its place in the text. */
  method ScanByte(b: GapBuffer, hl: Span, top: nat, i: nat, canvas: Canvas) returns (next: Canvas)
    requires b.Valid() && i < b.data.Length && !(b.gapStart <= i < b.gapEnd)
    requires Scanned(b.Model(), hl, top, i, canvas)
    ensures Scanned(b.Model(), hl, top, i + 1, next)
  {
    ghost var g := b.Model();
    var gapSize := b.gapEnd - b.gapStart;
    var selStart, selEnd := 0, 0;
    if hl.active {
      selStart, selEnd := Min(hl.start, hl.end), Max(hl.start, hl.end);
    }
    var logical := if i < b.gapStart then i else i - gapSize;
    var lit := hl.active && selStart <= logical < selEnd;
    RawByte(g, hl, top, i, canvas);
    var marks, row, col, margin := DrawByte(b.data[i], lit, top, canvas.pos.row, canvas.pos.col, canvas.margin);
    next := Canvas(canvas.frame + marks, Pos(row, col), margin);
    DrawsRaw(g, hl, top, i, canvas, next);
  }

  /** One byte drawn at `(row, col)`. */
  method DrawByte(c: byte, lit: bool, top: nat, row: nat, col: nat, margin: bool)
    returns (marks: seq<Mark>, row': nat, col': nat, margin': bool)
    requires col < 60 && (OnScreen(top, row) ==> (margin <==> col == 0))
    ensures Pos(row', col') == Step(Pos(row, col), c)
    ensures margin' == MarginAfter(OnScreen(top, row), margin, row < row')
    ensures marks ==
            if !OnScreen(top, row) then []
            else (if col == 0 then [Margin] else []) + [Glyph(c, lit)]
                 + (if c != NEWLINE && row < row' then [Wrap] else [])
  {
    marks, row', col', margin' := [], row, col, margin;
    var visible := row >= top && row < top + ROWS;
    if visible {
      if margin {
        marks := marks + [Margin];
        margin' := false;
      }
      marks := marks + [Glyph(c, lit)];
    }
    if c == NEWLINE {
      row' := row + 1;
      col' := 0;
      if visible {
        margin' := true;
      }
    } else if c == TAB {
      col' := col + (8 - col % 8);
    } else {
      col' := col + 1;
    }
    if col' >= 60 && c != NEWLINE {
      if visible {
        marks := marks + [Wrap];
        margin' := true;
      }
      row' := row' + 1;
      col' := 0;
    }
  }

  // ---- what the frame shows ----

  /** The bytes drawn, in order. */
  ghost function Glyphs(frame: seq<Mark>): Text {
    if frame == [] then []
    else
      var n := |frame| - 1;
      Glyphs(frame[..n]) + if frame[n].Glyph? then [frame[n].ch] else []
  }

  /** The bytes drawn highlighted. */
  ghost function LitBytes(frame: seq<Mark>): Text {
    if frame == [] then []
    else
      var n := |frame| - 1;
      LitBytes(frame[..n]) + if frame[n].Glyph? && frame[n].lit then [frame[n].ch] else []
  }

  lemma {:induction false} FramesJoin(a: seq<Mark>, b: seq<Mark>)
    ensures Glyphs(a + b) == Glyphs(a) + Glyphs(b) && LitBytes(a + b) == LitBytes(a) + LitBytes(b)
  {
    if b == [] {
      assert a + b == a;
    } else {
      var n := |b| - 1;
      assert (a + b)[..|a + b| - 1] == a + b[..n];
      FramesJoin(a, b[..n]);
    }
  }

  lemma ThreeParts(first: seq<Mark>, glyph: Mark, last: seq<Mark>)
    requires glyph.Glyph? && Glyphs(first) == LitBytes(first) == Glyphs(last) == LitBytes(last) == []
    ensures Glyphs(first + [glyph] + last) == [glyph.ch]
    ensures LitBytes(first + [glyph] + last) == if glyph.lit then [glyph.ch] else []
  {
    FramesJoin(first + [glyph], last);
    FramesJoin(first, [glyph]);
    OneMark(glyph);
  }

  /** One byte on the screen is drawn once, one elsewhere is not. */
  lemma DrawnGlyph(t: Text, sel: Span, top: nat, k: nat)
    requires k < |t|
    ensures Glyphs(Drawn(t, sel, top, k)) == if OnScreen(top, At(t, k).row) then [t[k]] else []
    ensures LitBytes(Drawn(t, sel, top, k))
            == if OnScreen(top, At(t, k).row) && Selects(sel, k) then [t[k]] else []
  {
    var p, q := At(t, k), At(t, k + 1);
    if OnScreen(top, p.row) {
      OneMark(Margin);
      OneMark(Wrap);
      ThreeParts(if p.col == 0 then [Margin] else [], Glyph(t[k], Selects(sel, k)),
                 if t[k] != NEWLINE && p.row < q.row then [Wrap] else []);
    }
  }

  lemma OneMark(m: Mark)
    ensures Glyphs([m]) == (if m.Glyph? then [m.ch] else []) && Glyphs([]) == []
    ensures LitBytes([m]) == (if m.Glyph? && m.lit then [m.ch] else []) && LitBytes([]) == []
  {
    assert [m][..0] == [];
  }

  /** The offsets from `a` to `b` are those on the twenty rows from `top` on. */
  ghost predicate Window(t: Text, top: nat, a: nat, b: nat) {
    a <= b <= |t| && forall k: nat :: k < |t| ==> InWindow(t, top, a, b, k)
  }

  ghost predicate InWindow(t: Text, top: nat, a: nat, b: nat, k: nat)
    requires k < |t|
  {
    a <= k < b <==> top <= At(t, k).row < top + 20
  }

  /** How many of the first `n` offsets are above row `row`. */
  function Above(t: Text, row: nat, n: nat): (a: nat)
    requires n <= |t|
    ensures a <= n
  {
    if n == 0 then 0 else if At(t, n - 1).row < row then n else Above(t, row, n - 1)
  }

  lemma {:induction false} AboveSplits(t: Text, row: nat, n: nat, k: nat)
    requires k < n <= |t|
    ensures k < Above(t, row, n) <==> At(t, k).row < row
  {
    if k < n - 1 {
      AboveSplits(t, row, n - 1, k);
      Monotone(t, k, n - 1);
    }
  }

  /** Every screen has its stretch of the text. */
  lemma EveryWindow(t: Text, top: nat)
    ensures exists a: nat, b: nat :: Window(t, top, a, b)
  {
    var a, b := Above(t, top, |t|), Above(t, top + 20, |t|);
    forall k: nat | k < |t|
      ensures InWindow(t, top, a, b, k)
    {
      AboveSplits(t, top, |t|, k);
      AboveSplits(t, top + 20, |t|, k);
    }
    if b < a {
      AboveSplits(t, top, |t|, b);
      AboveSplits(t, top + 20, |t|, b);
      assert false;
    }
    assert Window(t, top, a, b);
  }

  /** `x` moved into the window. */
  function Within(x: nat, a: nat, b: nat): nat {
    Max(a, Min(x, b))
  }

  lemma ScanOneMore(t: Text, sel: Span, top: nat, n: nat, before: seq<Mark>, after: seq<Mark>)
    requires n < |t| && before == Scan(t, sel, top, n) && after == Scan(t, sel, top, n + 1)
    ensures Glyphs(after) == Glyphs(before) + if OnScreen(top, At(t, n).row) then [t[n]] else []
    ensures LitBytes(after)
            == LitBytes(before) + if OnScreen(top, At(t, n).row) && Selects(sel, n) then [t[n]] else []
  {
    FramesJoin(before, Drawn(t, sel, top, n));
    DrawnGlyph(t, sel, top, n);
  }

  lemma TakeOne(t: Text, n: nat, x: nat, y: nat)
    requires n < |t| && x <= y
    ensures t[Min(x, n)..Min(y, n)] + (if x <= n < y then [t[n]] else []) == t[Min(x, n + 1)..Min(y, n + 1)]
  {
  }

  lemma ShowsInWindow(t: Text, top: nat, k: nat, a: nat, b: nat)
    requires k < |t| && Window(t, top, a, b)
    ensures a <= b && (OnScreen(top, At(t, k).row) <==> a <= k < b)
  {
    assert InWindow(t, top, a, b, k);
  }

  lemma {:induction false} GlyphsSoFar(t: Text, sel: Span, top: nat, n: nat, a: nat, b: nat, frame: seq<Mark>)
    requires n <= |t| && Window(t, top, a, b) && frame == Scan(t, sel, top, n)
    ensures Glyphs(frame) == t[Min(a, n)..Min(b, n)]
  {
    if n > 0 {
      var before := Scan(t, sel, top, n - 1);
      GlyphsSoFar(t, sel, top, n - 1, a, b, before);
      ScanOneMore(t, sel, top, n - 1, before, frame);
      ShowsInWindow(t, top, n - 1, a, b);
      TakeOne(t, n - 1, a, b);
    }
  }

  /** Offset `k` is drawn highlighted exactly from `x` to `y`. */
  ghost predicate LitAt(t: Text, sel: Span, top: nat, x: nat, y: nat, k: nat)
    requires k < |t|
  {
    OnScreen(top, At(t, k).row) && Selects(sel, k) <==> x <= k < y
  }

  ghost predicate LitBetween(t: Text, sel: Span, top: nat, x: nat, y: nat) {
    x <= y && forall k: nat :: k < |t| ==> LitAt(t, sel, top, x, y, k)
  }

  lemma ShowsLit(t: Text, sel: Span, top: nat, k: nat, x: nat, y: nat)
    requires k < |t| && LitBetween(t, sel, top, x, y)
    ensures x <= y && (OnScreen(top, At(t, k).row) && Selects(sel, k) <==> x <= k < y)
  {
    assert LitAt(t, sel, top, x, y, k);
  }

  lemma {:induction false} LitSoFar(t: Text, sel: Span, top: nat, n: nat, x: nat, y: nat, frame: seq<Mark>)
    requires n <= |t| && LitBetween(t, sel, top, x, y) && frame == Scan(t, sel, top, n)
    ensures LitBytes(frame) == t[Min(x, n)..Min(y, n)]
  {
    if n > 0 {
      var before := Scan(t, sel, top, n - 1);
      LitSoFar(t, sel, top, n - 1, x, y, before);
      ScanOneMore(t, sel, top, n - 1, before, frame);
      ShowsLit(t, sel, top, n - 1, x, y);
      TakeOne(t, n - 1, x, y);
    }
  }

  /** The selected part of the window, `x` to `y`. */
  lemma LitInWindow(t: Text, sel: Span, top: nat, k: nat, a: nat, b: nat, x: nat, y: nat)
    requires k < |t| && Window(t, top, a, b)
    requires if sel.active
             then x == Within(Min(sel.start, sel.end), a, b) && y == Within(Max(sel.start, sel.end), a, b)
             else x == a && y == a
    ensures LitAt(t, sel, top, x, y, k)
  {
    assert InWindow(t, top, a, b, k);
  }

  /**
   * The bytes drawn spell the part of the text that is on the screen, and those
   * drawn highlighted the part of it between the ends of the selection, whichever
   * was set first.
   */
  lemma FrameSpells(t: Text, sel: Span, top: nat, a: nat, b: nat)
    requires Window(t, top, a, b)
    ensures var frame := Scan(t, sel, top, |t|);
            && Glyphs(frame) == t[a..b]
            && LitBytes(frame) == if sel.active
                                  then t[Within(Min(sel.start, sel.end), a, b)..Within(Max(sel.start, sel.end), a, b)]
                                  else []
  {
    var frame := Scan(t, sel, top, |t|);
    var x := if sel.active then Within(Min(sel.start, sel.end), a, b) else a;
    var y := if sel.active then Within(Max(sel.start, sel.end), a, b) else a;
    GlyphsSoFar(t, sel, top, |t|, a, b, frame);
    forall k: nat | k < |t|
      ensures LitAt(t, sel, top, x, y, k)
    {
      LitInWindow(t, sel, top, k, a, b, x, y);
    }
    LitSoFar(t, sel, top, |t|, x, y, frame);
  }

  /** With all rows on the screen, the whole text is drawn, and highlighted what the selection takes. */
  lemma FrameHighlights(t: Text, sel: Span)
    requires Window(t, 0, 0, |t|)
    ensures Glyphs(Scan(t, sel, 0, |t|)) == t && LitBytes(Scan(t, sel, 0, |t|)) == Highlighted(t, sel)
  {
    FrameSpells(t, sel, 0, 0, |t|);
  }

  // ---- the cursor ----

  /** What `PrintBuffer` promises, in rows of the screen. */
  lemma CursorOnItsRow(g: Gap, top: nat, r: int, c: nat)
    requires g.Valid() && CursorDrawn(g, top, r, c) && g.start < |g.data|
    requires var row := At(g.Content(), g.start).row; top + Min(row, 10) == row
    ensures var p := At(g.Content(), g.start);
            && c == p.col && (if p.row < 10 then r == p.row && top == 0 else r == 10)
  {
  }

  /**
   * The two passes agree: the cursor is drawn on its own row while that is below 10,
   * the text's first row on top, and on row 10 from there on.
   */
  lemma CursorInUpperHalf(t: Text, c: nat)
    requires c <= |t|
    ensures var p := At(t, c); var top := ScrollTop(p.row);
            && p.row - top == Min(p.row, 10) && (p.row < 10 ==> top == 0)
            && top <= p.row < top + 20 && p.col < 60
  {
  }

  /** The loop never meets the cursor and draws it at (0, 0), where it is not. */
  ghost predicate Misdrawn(g: Gap)
    requires g.Valid()
  {
    var p := At(g.Content(), g.start);
    g.start == |g.data| && !(p.row - ScrollTop(p.row) == 0 && p.col == 0)
  }

  /** That happens exactly at the end of a text that is not empty, when there is no gap left. */
  lemma UnmetCursor(g: Gap)
    requires g.Valid()
    ensures Misdrawn(g) <==> g.start == g.end && g.start == |g.Content()| && g.Content() != []
  {
    var t := g.Content();
    if g.start == |g.data| && t != [] {
      Monotone(t, 0, |t|);
    }
  }

  /** A client gets there whenever a text arrives that ends at or before its cursor. */
  lemma RefreshMisdraws(g: Gap, text: Text)
    requires g.Valid()
    ensures Misdrawn(Refreshed(g, text)) <==> |text| <= g.start && text != []
  {
    UnmetCursor(Refreshed(g, text));
  }

  // ---- what a terminal makes of the frame ----

  /** The bytes that take one column on any terminal, and the two that the layout knows. */
  predicate Plain(b: byte) {
    32 <= b < 127 || b == NEWLINE || b == TAB
  }

  /**
   * A terminal with tab stops every 8 columns, and the spaces printed on its
   * left. What it does with a byte that is not plain (a carriage return, a part
   * of a longer character) is open: `other`.
   */
  datatype Terminal = Terminal(width: nat, pad: nat, other: (Pos, byte) -> Pos) {
    /** The margin and the 60 columns fit. */
    predicate Wide() {
      pad + 60 <= width
    }
  }

  /** Where the terminal is after a frame. */
  ghost function Shown(frame: seq<Mark>, term: Terminal): Pos
    requires term.Wide()
  {
    if frame == [] then Pos(0, 0)
    else Put(Shown(frame[..|frame| - 1], term), frame[|frame| - 1], term)
  }

  /** A tab stops at the last column; a byte after the last column goes to the next row. */
  ghost function Put(p: Pos, m: Mark, term: Terminal): Pos
    requires term.Wide()
  {
    match m
    case Margin => Pos(p.row, p.col + term.pad)
    case Wrap => Pos(p.row + 1, 0)
    case Glyph(ch, _) =>
      if !Plain(ch) then term.other(p, ch)
      else if ch == NEWLINE then Pos(p.row + 1, 0)
      else if ch == TAB then Pos(p.row, Min((p.col / 8 + 1) * 8, term.width - 1))
      else if p.col == term.width then Pos(p.row + 1, 1)
      else Pos(p.row, p.col + 1)
  }

  lemma {:induction false} ShownAppends(a: seq<Mark>, m: Mark, term: Terminal)
    requires term.Wide()
    ensures Shown(a + [m], term) == Put(Shown(a, term), m, term)
  {
    assert (a + [m])[..|a|] == a;
  }

  /** The place of a layout position on the terminal: `top` rows up, and the margin to the right. */
  ghost function Placed(p: Pos, top: nat, pad: nat): Pos
    requires top <= p.row
  {
    Pos(p.row - top, if p.col == 0 then 0 else pad + p.col)
  }

  /** After the first `k` bytes the terminal is where the layout is. */
  ghost predicate InPlace(t: Text, sel: Span, top: nat, k: nat, term: Terminal)
    requires k <= |t| && term.Wide()
  {
    var p := At(t, k);
    && (p.row < top ==> Scan(t, sel, top, k) == [])
    && (OnScreen(top, p.row) ==> Shown(Scan(t, sel, top, k), term) == Placed(p, top, term.pad))
  }

  /** A tab needs a margin that is a multiple of 8, unless it wraps. */
  predicate Aligned(c: byte, col: nat, pad: nat) {
    c == TAB ==> pad % 8 == 0 || col >= 56
  }

  /** One byte drawn past the margin, with the wrap that the frame adds. */
  ghost function PutByte(p: Pos, c: byte, lit: bool, wraps: bool, term: Terminal): Pos
    requires term.Wide()
  {
    var g := Put(p, Glyph(c, lit), term);
    if wraps then Put(g, Wrap, term) else g
  }

  lemma Stops(pad: nat, col: nat)
    requires col < 56
    ensures (col / 8 + 1) * 8 <= 56
    ensures ((pad + col) / 8 + 1) * 8 == pad + (col / 8 + 1) * 8 <==> pad % 8 == 0
  {
    if pad % 8 == 0 {
      assert pad == 8 * (pad / 8);
      assert (pad + col) / 8 == pad / 8 + col / 8;
    }
  }

  lemma TabReaches(r: nat, col: nat, lit: bool, term: Terminal)
    requires term.Wide() && col < 56
    ensures Put(Pos(r, term.pad + col), Glyph(TAB, lit), term) == Pos(r, term.pad + (col / 8 + 1) * 8)
            <==> term.pad % 8 == 0
  {
    Stops(term.pad, col);
  }

  /** It reaches the layout's next position exactly when it is aligned. */
  lemma ByteInPlace(p: Pos, c: byte, lit: bool, top: nat, term: Terminal)
    requires term.Wide() && top <= p.row && p.col < 60 && Plain(c)
    ensures var q := Step(p, c);
            && (PutByte(Pos(p.row - top, term.pad + p.col), c, lit, c != NEWLINE && p.row < q.row, term)
                == Placed(q, top, term.pad)
                <==> Aligned(c, p.col, term.pad))
            && (p.row < q.row ==> Aligned(c, p.col, term.pad))
  {
    if c == TAB && p.col < 56 {
      TabReaches(p.row - top, p.col, lit, term);
    }
  }

  lemma MarginFirst(frame: seq<Mark>, r: nat, col: nat, term: Terminal)
    requires term.Wide() && Shown(frame, term) == Pos(r, if col == 0 then 0 else term.pad + col)
    ensures Shown(frame + if col == 0 then [Margin] else [], term) == Pos(r, term.pad + col)
  {
    ShownAppends(frame, Margin, term);
    AppendNothing(frame);
  }

  /** The marks of one byte, put together one by one. */
  lemma DrawnParts(frame: seq<Mark>, t: Text, sel: Span, top: nat, k: nat)
    requires k < |t| && OnScreen(top, At(t, k).row)
    ensures var p := At(t, k); var q := Step(p, t[k]);
            var glyph := Glyph(t[k], Selects(sel, k));
            var marked := frame + (if p.col == 0 then [Margin] else []) + [glyph];
            frame + Drawn(t, sel, top, k)
              == if t[k] != NEWLINE && p.row < q.row then marked + [Wrap] else marked
  {
  }

  lemma ShownTwice(f: seq<Mark>, glyph: Mark, term: Terminal)
    requires term.Wide()
    ensures Shown(f + [glyph], term) == Put(Shown(f, term), glyph, term)
    ensures Shown(f + [glyph] + [Wrap], term) == Put(Put(Shown(f, term), glyph, term), Wrap, term)
  {
    ShownAppends(f, glyph, term);
    ShownAppends(f + [glyph], Wrap, term);
  }

  /** One byte of the frame, from a terminal that is in place. */
  lemma DrawnOnTerminal(frame: seq<Mark>, p: Pos, top: nat, term: Terminal, t: Text, sel: Span, k: nat)
    requires term.Wide() && k < |t| && p == At(t, k) && OnScreen(top, p.row)
    requires Shown(frame, term) == Placed(p, top, term.pad)
    ensures Shown(frame + Drawn(t, sel, top, k), term)
            == PutByte(Pos(p.row - top, term.pad + p.col), t[k], Selects(sel, k),
                       t[k] != NEWLINE && p.row < Step(p, t[k]).row, term)
  {
    var glyph := Glyph(t[k], Selects(sel, k));
    var f := frame + if p.col == 0 then [Margin] else [];
    assert Shown(f, term) == Pos(p.row - top, term.pad + p.col) by {
      MarginFirst(frame, p.row - top, p.col, term);
    }
    DrawnParts(frame, t, sel, top, k);
    ShownTwice(f, glyph, term);
  }

  lemma StaysInPlace(t: Text, sel: Span, top: nat, k: nat, term: Terminal)
    requires term.Wide() && k < |t| && InPlace(t, sel, top, k, term)
    requires OnScreen(top, At(t, k).row) ==> Plain(t[k])
    ensures InPlace(t, sel, top, k + 1, term)
            <==> (OnScreen(top, At(t, k).row) ==> Aligned(t[k], At(t, k).col, term.pad))
  {
    var p, frame := At(t, k), Scan(t, sel, top, k);
    if OnScreen(top, p.row) {
      DrawnOnTerminal(frame, p, top, term, t, sel, k);
      ByteInPlace(p, t[k], Selects(sel, k), top, term);
    } else if p.row < top {
      assert Drawn(t, sel, top, k) == [];
      assert Scan(t, sel, top, k + 1) == [];
    }
  }

  ghost predicate PlainAt(t: Text, top: nat, k: nat)
    requires k < |t|
  {
    OnScreen(top, At(t, k).row) ==> Plain(t[k])
  }

  ghost predicate PlainOnScreen(t: Text, top: nat) {
    forall k: nat :: k < |t| ==> PlainAt(t, top, k)
  }

  /** Byte `k`, if it is a tab on the screen, wraps. */
  ghost predicate TabWraps(t: Text, top: nat, k: nat)
    requires k < |t|
  {
    t[k] == TAB && OnScreen(top, At(t, k).row) ==> At(t, k).col >= 56
  }

  /** The margin is a multiple of 8, or every tab on the screen wraps. */
  ghost predicate TabsLineUp(t: Text, top: nat, pad: nat) {
    pad % 8 == 0 || forall k: nat :: k < |t| ==> TabWraps(t, top, k)
  }

  lemma {:induction false} InPlaceSoFar(t: Text, sel: Span, top: nat, k: nat, term: Terminal)
    requires term.Wide() && PlainOnScreen(t, top) && TabsLineUp(t, top, term.pad) && k <= |t|
    ensures InPlace(t, sel, top, k, term)
  {
    if k > 0 {
      InPlaceSoFar(t, sel, top, k - 1, term);
      assert PlainAt(t, top, k - 1) && (term.pad % 8 == 0 || TabWraps(t, top, k - 1));
      StaysInPlace(t, sel, top, k - 1, term);
    }
  }

  /**
   * On a terminal wide enough, a frame of plain bytes comes out where the layout
   * puts it, byte by byte, exactly when the left margin is a multiple of 8 or
   * every tab on the screen wraps.
   */
  lemma FrameInPlace(t: Text, sel: Span, top: nat, term: Terminal)
    requires term.Wide() && PlainOnScreen(t, top)
    ensures (forall k: nat :: k <= |t| ==> InPlace(t, sel, top, k, term)) <==> TabsLineUp(t, top, term.pad)
  {
    if TabsLineUp(t, top, term.pad) {
      forall k: nat | k <= |t|
        ensures InPlace(t, sel, top, k, term)
      {
        InPlaceSoFar(t, sel, top, k, term);
      }
    } else {
      var k: nat :| k < |t| && !TabWraps(t, top, k);
      assert PlainAt(t, top, k);
      if InPlace(t, sel, top, k, term) {
        StaysInPlace(t, sel, top, k, term);
        assert !InPlace(t, sel, top, k + 1, term);
      }
    }
  }

  /** So the simplest text to go wrong is a lone tab, for every margin off the tab stops. */
  lemma MisalignedMargin(term: Terminal)
    requires term.Wide() && term.pad % 8 != 0
    ensures !InPlace([TAB], NONE, 0, 1, term)
  {
    var t := [TAB];
    assert At(t, 0) == Pos(0, 0);
    assert InPlace(t, NONE, 0, 0, term);
    StaysInPlace(t, NONE, 0, 0, term);
  }

  /**
   * Plain bytes are needed: the carriage return that a file may bring along takes
   * a column of the layout, and the terminal to the left edge.
   */
  lemma ReturnMisleads(term: Terminal)
    requires term.Wide() && forall r: nat, c: nat :: term.other(Pos(r, c), RETURN) == Pos(r, 0)
    ensures !InPlace([SPACE, RETURN], NONE, 0, 2, term)
  {
    var t := [SPACE, RETURN];
    assert At(t, 0) == Pos(0, 0) && At(t, 1) == Pos(0, 1) && At(t, 2) == Pos(0, 2);
    assert InPlace(t, NONE, 0, 0, term);
    StaysInPlace(t, NONE, 0, 0, term);
    DrawnOnTerminal(Scan(t, NONE, 0, 1), Pos(0, 1), 0, term, t, NONE, 1);
  }
}
