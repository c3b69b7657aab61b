/** The loops of the gap buffer's moves, one turn at a time, on values. */
module Walks {
  import opened Bytes
  import opened Lines
  import opened Moves
  import opened GapModel

  /** `h` is `g` after `n` primitive moves left. */
  ghost predicate WentLeft(g: Gap, h: Gap, n: nat) {
    && g.Valid() && n <= g.start && h == LeftBy(g, n)
    && h.start == g.start - n && h.end == g.end - n
  }

  /** `h` is `g` after `n` primitive moves right. */
  ghost predicate WentRight(g: Gap, h: Gap, n: nat) {
    && g.Valid() && g.end + n <= |g.data| && h == RightBy(g, n)
    && h.start == g.start + n && h.end == g.end + n
  }

  /** After moves left, the byte left of the cursor is that of the text. */
  lemma SeesLeft(g: Gap, h: Gap, n: nat)
    requires WentLeft(g, h, n) && h.start > 0
    ensures h.data[h.start - 1] == g.Content()[h.start - 1]
  {
    LeftByKeepsText(g, n);
    assert h.data[h.start - 1] == h.Content()[h.start - 1];
  }

  /** After moves right, the byte right of the cursor is that of the text. */
  lemma SeesRight(g: Gap, h: Gap, n: nat)
    requires WentRight(g, h, n) && h.end < |h.data|
    ensures h.start < |g.Content()| && h.data[h.end] == g.Content()[h.start]
  {
    RightByKeepsText(g, n);
    assert h.data[h.end] == h.Content()[h.start];
  }

  lemma OneMoreLeft(g: Gap, h: Gap, n: nat)
    requires WentLeft(g, h, n) && h.start > 0
    ensures WentLeft(g, StepLeft(h), n + 1)
  {
    LeftByKeepsText(g, n + 1);
  }

  lemma OneMoreRight(g: Gap, h: Gap, n: nat)
    requires WentRight(g, h, n) && h.end < |h.data|
    ensures WentRight(g, StepRight(h), n + 1)
  {
    RightByKeepsText(g, n + 1);
  }

  // ---- words ----

  ghost predicate TowardsWordStart(g: Gap, h: Gap, n: nat) {
    WentLeft(g, h, n) && g.start > 0
    && WordStart(g.Content(), h.start) == WordStart(g.Content(), g.start - 1)
  }

  lemma WordLeftStarts(g: Gap)
    requires g.Valid() && g.start > 0
    ensures TowardsWordStart(g, StepLeft(g), 1)
  {
    OneMoreLeft(g, g, 0);
  }

  lemma WordLeftGoesOn(g: Gap, h: Gap, n: nat)
    requires TowardsWordStart(g, h, n) && h.start > 0 && h.data[h.start - 1] != SPACE
    ensures TowardsWordStart(g, StepLeft(h), n + 1)
  {
    SeesLeft(g, h, n);
    OneMoreLeft(g, h, n);
  }

  lemma WordLeftArrives(g: Gap, h: Gap, n: nat)
    requires TowardsWordStart(g, h, n) && (h.start == 0 || h.data[h.start - 1] == SPACE)
    ensures h == Travel(g, WordLeft)
  {
    if h.start > 0 {
      SeesLeft(g, h, n);
    }
    assert WordStart(g.Content(), h.start) == h.start;
    assert TripOf(WordLeft, g.Content(), g.start) == Trip(n, 0);
  }

  ghost predicate TowardsWordEnd(g: Gap, h: Gap, n: nat) {
    WentRight(g, h, n) && g.end < |g.data|
    && WordEnd(g.Content(), h.start) == WordEnd(g.Content(), g.start + 1)
  }

  lemma WordRightStarts(g: Gap)
    requires g.Valid() && g.end < |g.data|
    ensures TowardsWordEnd(g, StepRight(g), 1)
  {
    OneMoreRight(g, g, 0);
  }

  lemma WordRightGoesOn(g: Gap, h: Gap, n: nat)
    requires TowardsWordEnd(g, h, n) && h.end < |h.data| && h.data[h.end] != SPACE
    ensures TowardsWordEnd(g, StepRight(h), n + 1)
  {
    SeesRight(g, h, n);
    OneMoreRight(g, h, n);
  }

  lemma WordRightArrives(g: Gap, h: Gap, n: nat)
    requires TowardsWordEnd(g, h, n) && (h.end == |h.data| || h.data[h.end] == SPACE)
    ensures h == Travel(g, WordRight)
  {
    if h.end < |h.data| {
      SeesRight(g, h, n);
    }
    assert WordEnd(g.Content(), h.start) == h.start;
    assert TripOf(WordRight, g.Content(), g.start) == Trip(0, n);
    assert LeftBy(g, 0) == g;
  }

  // ---- lines ----

  /** On the way left along the line that starts at `s`. */
  ghost predicate TowardsLineStart(g: Gap, h: Gap, n: nat, s: nat) {
    WentLeft(g, h, n) && LineStart(g.Content(), h.start) == s
  }

  lemma LineLeftGoesOn(g: Gap, h: Gap, n: nat, s: nat)
    requires TowardsLineStart(g, h, n, s) && h.start > 0 && h.data[h.start - 1] != NEWLINE
    ensures TowardsLineStart(g, StepLeft(h), n + 1, s)
  {
    SeesLeft(g, h, n);
    OneMoreLeft(g, h, n);
  }

  lemma LineLeftArrives(g: Gap, h: Gap, n: nat, s: nat)
    requires TowardsLineStart(g, h, n, s) && (h.start == 0 || h.data[h.start - 1] == NEWLINE)
    ensures h.start == s
  {
    if h.start > 0 {
      SeesLeft(g, h, n);
    }
  }

  /** Over the newline, onto the line before; on the first line nothing happens. */
  lemma LineLeftCrosses(g: Gap, h: Gap, n: nat)
    requires WentLeft(g, h, n) && h.start == LineStart(g.Content(), g.start)
    ensures if h.start > 0 then TowardsLineStart(g, StepLeft(h), n + 1, PrevLineStart(g.Content(), g.start))
            else TowardsLineStart(g, h, n, PrevLineStart(g.Content(), g.start))
  {
    if h.start > 0 {
      OneMoreLeft(g, h, n);
    }
  }

  /** On the way right to the end `e` of the line. */
  ghost predicate TowardsLineEnd(g: Gap, h: Gap, n: nat, e: nat) {
    WentRight(g, h, n) && LineEnd(g.Content(), h.start) == e
  }

  lemma LineRightGoesOn(g: Gap, h: Gap, n: nat, e: nat)
    requires TowardsLineEnd(g, h, n, e) && h.end < |h.data| && h.data[h.end] != NEWLINE
    ensures TowardsLineEnd(g, StepRight(h), n + 1, e)
  {
    SeesRight(g, h, n);
    OneMoreRight(g, h, n);
  }

  lemma LineRightArrives(g: Gap, h: Gap, n: nat, e: nat)
    requires TowardsLineEnd(g, h, n, e) && (h.end == |h.data| || h.data[h.end] == NEWLINE)
    ensures h.start == e && (e < |g.Content()| <==> h.end < |h.data|)
  {
    if h.end < |h.data| {
      SeesRight(g, h, n);
    }
  }

  // ---- the width of the line from the cursor on ----

  /** The scan at raw position `i` has measured `w` columns. */
  ghost predicate Measured(h: Gap, i: nat, w: nat) {
    && h.Valid() && h.end <= i <= |h.data|
    && var at := h.start + (i - h.end);
    && at <= |h.Content()|
    && LineEnd(h.Content(), at) == LineEnd(h.Content(), h.start)
    && Width(h.Content(), h.start, at) == w
  }

  lemma MeasureGoesOn(h: Gap, i: nat, w: nat)
    requires Measured(h, i, w) && i < |h.data| && h.data[i] != NEWLINE
    ensures Measured(h, i + 1, Advance(w, h.data[i]))
  {
    assert h.data[i] == h.Content()[h.start + (i - h.end)];
  }

  lemma MeasureEnds(h: Gap, i: nat, w: nat)
    requires Measured(h, i, w) && (i == |h.data| || h.data[i] == NEWLINE)
    ensures w == Width(h.Content(), h.start, LineEnd(h.Content(), h.start))
  {
    if i < |h.data| {
      assert h.data[i] == h.Content()[h.start + (i - h.end)];
    }
  }

  // ---- the walk to a column ----

  /** `h` has come `n` bytes right of `g`, the start of a line that ends at `e`, to column `col`. */
  ghost predicate AtColumn(g: Gap, h: Gap, n: nat, e: nat, col: nat) {
    && TowardsLineEnd(g, h, n, e) && LineEnd(g.Content(), g.start) == e
    && Width(g.Content(), g.start, h.start) == col
  }

  lemma ColumnGoesOn(g: Gap, h: Gap, n: nat, e: nat, col: nat)
    requires AtColumn(g, h, n, e, col) && h.end < |h.data| && h.data[h.end] != NEWLINE
    ensures AtColumn(g, StepRight(h), n + 1, e, Advance(col, h.data[h.end]))
    ensures h.start < e && Width(g.Content(), g.start, h.start + 1) == Advance(col, h.data[h.end])
  {
    SeesRight(g, h, n);
    OneMoreRight(g, h, n);
  }

  /** The line ends here, or the next byte is too wide. */
  ghost predicate Stuck(h: Gap, col: nat, target: nat) {
    h.end >= |h.data| || h.data[h.end] == NEWLINE || Advance(col, h.data[h.end]) > target
  }

  lemma ColumnArrives(g: Gap, h: Gap, n: nat, e: nat, col: nat, target: nat)
    requires AtColumn(g, h, n, e, col) && col <= target && Stuck(h, col, target)
    ensures h.start == Fit(g.Content(), g.start, e, target)
  {
    if h.end == |h.data| || h.data[h.end] == NEWLINE {
      LineRightArrives(g, h, n, e);
    } else {
      ColumnGoesOn(g, h, n, e, col);
    }
    FitUnique(g.Content(), g.start, e, target, h.start);
  }

  // ---- the bytes left on the line, counted ----

  ghost predicate Counted(h: Gap, i: nat, r: nat) {
    && h.Valid() && h.end <= i <= |h.data| && r == i - h.end
    && h.start + r <= |h.Content()|
    && LineEnd(h.Content(), h.start + r) == LineEnd(h.Content(), h.start)
  }

  lemma CountGoesOn(h: Gap, i: nat, r: nat)
    requires Counted(h, i, r) && i < |h.data| && h.data[i] != NEWLINE
    ensures Counted(h, i + 1, r + 1) && r + 1 <= LineEnd(h.Content(), h.start) - h.start
  {
    assert h.data[i] == h.Content()[h.start + r];
  }

  lemma CountEnds(h: Gap, i: nat, r: nat)
    requires Counted(h, i, r) && (i == |h.data| || h.data[i] == NEWLINE)
    ensures r == LineEnd(h.Content(), h.start) - h.start
  {
    if i < |h.data| {
      assert h.data[i] == h.Content()[h.start + r];
    }
  }

  // ---- the vertical moves as a whole ----

  lemma UpSegmentArrives(g: Gap, h: Gap, n: nat, s: nat)
    requires TowardsLineStart(g, h, n, s) && g.start > 0 && Column(g.Content(), g.start) >= 60
    requires LineStart(g.Content(), g.start) == s
    requires n == 60 || (n < 60 && h.start == s)
    ensures h == Travel(g, Up)
  {
    assert UpTrip(g.Content(), g.start) == Trip(n, 0);
  }

  /** Left to the start of the line before, then right to the column. */
  lemma UpComposes(g: Gap, h: Gap, n: nat, r: Gap, k: nat)
    requires g.Valid() && g.start > 0 && Column(g.Content(), g.start) < 60
    requires WentLeft(g, h, n) && h.start == PrevLineStart(g.Content(), g.start)
    requires h.Valid() && WentRight(h, r, k)
    requires var t := h.Content(); var e := LineEnd(t, h.start);
             r.start == Fit(t, h.start, e, UpTarget(Width(t, h.start, e), Column(g.Content(), g.start)))
    ensures r == Travel(g, Up)
  {
    LeftByKeepsText(g, n);
    assert UpTrip(g.Content(), g.start) == Trip(n, k);
  }

  lemma RemainingAhead(g: Gap, h: Gap, n: nat)
    requires WentRight(g, h, n) && n < 60 <= LineEnd(g.Content(), g.start) - g.start
    ensures h.end < |h.data|
  {
  }

  lemma DownSegmentArrives(g: Gap, h: Gap)
    requires WentRight(g, h, 60) && 60 <= LineEnd(g.Content(), g.start) - g.start
    ensures h == Travel(g, Down)
  {
    assert DownTrip(g.Content(), g.start) == Trip(0, 60);
    assert LeftBy(g, 0) == g;
  }

  lemma DownToEndArrives(g: Gap, h: Gap, n: nat)
    requires WentRight(g, h, n) && h.start == LineEnd(g.Content(), g.start) == |g.Content()|
    requires n < 60
    ensures h == Travel(g, Down)
  {
    assert DownTrip(g.Content(), g.start) == Trip(0, n);
    assert LeftBy(g, 0) == g;
  }

  /** Past the newline to `s`, then right until the column or the end of that line. */
  lemma DownArrives(g: Gap, h: Gap, n: nat, s: nat, target: nat)
    requires g.Valid() && target == Column(g.Content(), g.start)
    requires s <= |g.Content()| && s == LineEnd(g.Content(), g.start) + 1
    requires LineEnd(g.Content(), g.start) - g.start < 60
    requires TowardsLineEnd(g, h, n, LineEnd(g.Content(), s)) && s <= h.start <= s + target
    requires h.start == s + target || h.end == |h.data| || h.data[h.end] == NEWLINE
    ensures h == Travel(g, Down)
  {
    var e := LineEnd(g.Content(), s);
    if h.start < s + target {
      LineRightArrives(g, h, n, e);
    }
    assert DownTrip(g.Content(), g.start) == Trip(0, n);
    assert LeftBy(g, 0) == g;
  }
}
