/**
 * The vertical moves against the rows of the view: the cursor commands count
 * tab stops and segments on the gap buffer, the view wraps the text, and the
 * two are written apart from each other.
 */
module Visual {
  import opened Bytes
  import opened Lines
  import opened Moves
  import opened Layout

  /** A line `[s, e)`: between newlines or the ends of the text. */
  ghost predicate IsLine(t: Text, s: nat, e: nat)
  {
    && s <= e <= |t|
    && (s == 0 || t[s - 1] == NEWLINE)
    && (e == |t| || t[e] == NEWLINE)
    && NoNewline(t, s, e)
  }

  lemma LineOf(t: Text, c: nat)
    requires c <= |t|
    ensures IsLine(t, LineStart(t, c), LineEnd(t, c))
  {
    LineStartBounds(t, c);
    LineEndBounds(t, c);
  }

  /** Every offset has its line and the lines around it. */
  lemma LinesAround(t: Text, c: nat) returns (p: nat, s: nat, e: nat, n: nat)
    requires c <= |t|
    ensures OnLinesUp(t, p, s, c, e) && OnLines(t, s, c, e, n)
  {
    s, e := LineStart(t, c), LineEnd(t, c);
    LineOf(t, c);
    p, n := 0, e;
    if s > 0 {
      p := LineStart(t, s - 1);
      LineStartBounds(t, s - 1);
    }
    if e < |t| {
      n := LineEnd(t, e + 1);
      LineEndBounds(t, e + 1);
    }
  }

  lemma OnLine(t: Text, s: nat, c: nat, e: nat)
    requires IsLine(t, s, e) && s <= c <= e
    ensures LineStart(t, c) == s && LineEnd(t, c) == e
  {
    LineStartUnique(t, c, s);
    LineEndUnique(t, c, e);
  }

  lemma UpTargetSegment(w: nat, k: nat)
    requires k < 60
    ensures UpTarget(w, k) == 60 * (w / 60) + Min(k, w % 60)
    ensures UpTarget(w, k) <= w
  {
  }

  lemma LineRows(t: Text, s: nat, c: nat, e: nat)
    requires IsLine(t, s, e) && s <= c <= e && TabFree(t, s, c)
    ensures At(t, s).col == 0
    ensures At(t, c) == Pos(At(t, s).row + (c - s) / 60, (c - s) % 60)
  {
    OnLine(t, s, s, e);
    LineStartColumn(t, s);
    Segments(t, s, c);
  }

  lemma AfterNewline(t: Text, e: nat)
    requires e < |t| && t[e] == NEWLINE
    ensures At(t, e + 1) == Pos(At(t, e).row + 1, 0)
  {
  }

  // ---- up ----

  lemma UpWithin(t: Text, s: nat, c: nat, e: nat)
    requires IsLine(t, s, e) && s <= c <= e && TabFree(t, s, c) && c - s >= 60
    ensures UpDest(t, c) == c - 60
  {
    OnLine(t, s, c, e);
    ColumnTabFree(t, c);
  }

  lemma FitExact(t: Text, p: nat, d: nat, e: nat)
    requires p <= d <= e <= |t| && TabFree(t, p, e)
    ensures Fit(t, p, e, d - p) == d
  {
    WidthTabFree(t, p, d);
    if d < e {
      WidthTabFree(t, p, d + 1);
    }
    FitUnique(t, p, e, d - p, d);
  }

  lemma UpUnfolds(t: Text, p: nat, c: nat, e: nat, w: nat, k: nat)
    requires 0 < c <= |t| && p == PrevLineStart(t, c) && e == LineEnd(t, p)
    requires Column(t, c) == k < 60 && Width(t, p, e) == w
    ensures UpDest(t, c) == Fit(t, p, e, UpTarget(w, k))
  {
  }

  lemma UpWalksTo(t: Text, p: nat, c: nat, e: nat, k: nat, u: nat)
    requires p <= e <= |t| && TabFree(t, p, e) && 0 < c <= |t|
    requires Column(t, c) == k < 60 && PrevLineStart(t, c) == p && LineEnd(t, p) == e
    requires u == UpTarget(e - p, k)
    ensures UpDest(t, c) == p + u
  {
    WidthTabFree(t, p, e);
    UpUnfolds(t, p, c, e, e - p, k);
    FitExact(t, p, p + u, e);
  }

  lemma UpLooksAt(t: Text, p: nat, s: nat, c: nat, e: nat)
    requires 0 < s && IsLine(t, p, s - 1) && IsLine(t, s, e) && s <= c <= e
    requires TabFree(t, p, c)
    ensures Column(t, c) == c - s && PrevLineStart(t, c) == p && LineEnd(t, p) == s - 1
  {
    OnLine(t, s, c, e);
    OnLine(t, p, s - 1, s - 1);
    OnLine(t, p, p, s - 1);
    ColumnTabFree(t, c);
  }

  lemma UpAcross(t: Text, p: nat, s: nat, c: nat, e: nat, u: nat)
    requires 0 < s && IsLine(t, p, s - 1) && IsLine(t, s, e) && s <= c <= e
    requires TabFree(t, p, c) && c - s < 60
    requires u == UpTarget(s - 1 - p, c - s)
    ensures UpDest(t, c) == p + u
  {
    UpLooksAt(t, p, s, c, e);
    UpWalksTo(t, p, c, s - 1, c - s, u);
  }

  /** The offset `60 * q + m` of a line is in column `m` of the line's row `q`. */
  lemma LineRowAt(t: Text, s: nat, c: nat, e: nat, q: nat, m: nat)
    requires IsLine(t, s, e) && s <= c <= e && TabFree(t, s, c)
    requires c - s == 60 * q + m && m < 60
    ensures At(t, s).col == 0 && At(t, c) == Pos(At(t, s).row + q, m)
  {
    LineRows(t, s, c, e);
  }

  /** An offset on the last row of the line before, as far right as the column allows. */
  lemma LandsAbove(t: Text, p: nat, s: nat, c: nat, e: nat, d: nat, q: nat, m: nat)
    requires 0 < s && IsLine(t, p, s - 1) && IsLine(t, s, e) && s <= c <= e
    requires TabFree(t, p, c) && c - s < 60
    requires s - 1 - p == 60 * q + m && m < 60
    requires d - p == 60 * q + Min(c - s, m)
    ensures LandsOn(t, d, At(t, c).row - 1, At(t, c).col)
  {
    LineRowAt(t, s, c, e, 0, c - s);
    LineRowAt(t, p, s - 1, s - 1, q, m);
    LineRowAt(t, p, d, s - 1, q, Min(c - s, m));
    AfterNewline(t, s - 1);
  }

  lemma UpAcrossLands(t: Text, p: nat, s: nat, c: nat, e: nat)
    requires 0 < s && IsLine(t, p, s - 1) && IsLine(t, s, e) && s <= c <= e
    requires TabFree(t, p, c) && c - s < 60
    ensures LandsOn(t, UpDest(t, c), At(t, c).row - 1, At(t, c).col)
  {
    var w := s - 1 - p;
    UpAcross(t, p, s, c, e, UpTarget(w, c - s));
    UpTargetSegment(w, c - s);
    LandsAbove(t, p, s, c, e, UpDest(t, c), w / 60, w % 60);
  }

  lemma UpWithinLands(t: Text, s: nat, c: nat, e: nat)
    requires IsLine(t, s, e) && s <= c <= e && TabFree(t, s, c) && c - s >= 60
    ensures LandsOn(t, UpDest(t, c), At(t, c).row - 1, At(t, c).col)
  {
    UpWithin(t, s, c, e);
    LineRows(t, s, c, e);
    LineRows(t, s, UpDest(t, c), e);
  }

  /** Offset `c` is on the line `[s, e)`, and `p` starts the line before if there is one. */
  ghost predicate OnLinesUp(t: Text, p: nat, s: nat, c: nat, e: nat) {
    && IsLine(t, s, e) && s <= c <= e
    && (if s > 0 then IsLine(t, p, s - 1) else p == 0)
  }

  /**
   * "Up" from any row but the first goes to the row above, in the same column
   * or at the end of that row. Tabs matter only between the start of the line
   * before and the cursor.
   */
  lemma UpIsRowAbove(t: Text, p: nat, s: nat, c: nat, e: nat)
    requires OnLinesUp(t, p, s, c, e) && TabFree(t, p, c)
    requires At(t, c).row > 0
    ensures LandsOn(t, UpDest(t, c), At(t, c).row - 1, At(t, c).col)
  {
    if c - s >= 60 {
      UpWithinLands(t, s, c, e);
    } else if s > 0 {
      UpAcrossLands(t, p, s, c, e);
    } else {
      LineRows(t, 0, c, e);
      assert false;
    }
  }

  /** The same for a text without tabs, with the row's width spelled out. */
  lemma UpInTabFreeText(t: Text, c: nat)
    requires c <= |t| && TabFree(t, 0, |t|) && At(t, c).row > 0
    ensures var r := At(t, c).row - 1;
            At(t, UpDest(t, c)) == Pos(r, Min(At(t, c).col, RowWidth(t, r)))
  {
    var p, s, e, _ := LinesAround(t, c);
    UpIsRowAbove(t, p, s, c, e);
    LandsOnMin(t, UpDest(t, c), At(t, c).row - 1, At(t, c).col);
  }

  /** On a line that is not wrapped the layout's column is the width, tabs included. */
  lemma {:induction false} WidthIsColumn(t: Text, s: nat, d: nat)
    requires s <= d <= |t| && NoNewline(t, s, d) && At(t, s).col == 0 && Width(t, s, d) < 60
    ensures At(t, d) == Pos(At(t, s).row, Width(t, s, d))
  {
    if s < d {
      WidthIsColumn(t, s, d - 1);
    }
  }

  /** An offset of the line in column `f`, with the next one past column `k`. */
  ghost predicate Reaches(t: Text, p: nat, e: nat, f: nat, k: nat) {
    p <= e <= |t| && exists d :: p <= d < e && Width(t, p, d) == f && f <= k < Width(t, p, d + 1)
  }

  lemma ReachesOnlyFit(t: Text, p: nat, e: nat, f: nat, k: nat, d: nat)
    requires p <= d < e <= |t| && Width(t, p, d) <= k < Width(t, p, d + 1)
    ensures Reaches(t, p, e, f, k) <==> Width(t, p, d) == f
  {
    if Reaches(t, p, e, f, k) {
      var d' :| p <= d' < e && Width(t, p, d') == f && f <= k < Width(t, p, d' + 1);
      if d' + 1 < d {
        WidthGrows(t, p, d' + 1, d);
      } else if d + 1 < d' {
        WidthGrows(t, p, d + 1, d');
      }
    }
  }

  lemma OffsetOfUnwrapped(t: Text, s: nat, d: nat, e: nat)
    requires IsLine(t, s, e) && s <= d <= e && At(t, s).col == 0 && Width(t, s, e) < 60
    ensures At(t, d) == Pos(At(t, s).row, Width(t, s, d))
  {
    if d < e {
      WidthGrows(t, s, d, e);
    }
    WidthIsColumn(t, s, d);
  }

  /** The rows of an offset on an unwrapped line and of the next line's start. */
  lemma RowOfUnwrapped(t: Text, p: nat, d: nat, e: nat)
    requires e < |t| && IsLine(t, p, e) && p <= d <= e && At(t, p).col == 0 && Width(t, p, e) < 60
    ensures At(t, d) == Pos(At(t, p).row, Width(t, p, d))
    ensures At(t, e + 1) == Pos(At(t, p).row + 1, 0)
  {
    OffsetOfUnwrapped(t, p, d, e);
    OffsetOfUnwrapped(t, p, e, e);
    AfterNewline(t, e);
  }

  lemma LineStartsRow(t: Text, p: nat, e: nat)
    requires IsLine(t, p, e)
    ensures At(t, p).col == 0
  {
    OnLine(t, p, p, e);
    LineStartColumn(t, p);
  }

  /** The rows of the cursor and of an offset on the unwrapped line before it. */
  lemma RowBefore(t: Text, p: nat, s: nat, c: nat, d: nat)
    requires 0 < s <= c <= |t| && IsLine(t, p, s - 1) && t[s - 1] == NEWLINE && NoNewline(t, s, c)
    requires p <= d <= s - 1 && Width(t, p, s - 1) < 60 && Width(t, s, c) < 60
    ensures At(t, c) == Pos(At(t, p).row + 1, Width(t, s, c))
    ensures At(t, d) == Pos(At(t, p).row, Width(t, p, d))
    ensures RowEnds(t, d) <==> d == s - 1
  {
    LineStartsRow(t, p, s - 1);
    RowOfUnwrapped(t, p, d, s - 1);
    WidthIsColumn(t, s, c);
    if d < s - 1 {
      RowOfUnwrapped(t, p, d + 1, s - 1);
    }
  }

  lemma UpToLineStart(t: Text, s: nat, c: nat, e: nat)
    requires IsLine(t, s, e) && s <= c <= e && Width(t, s, c) < 60 && Column(t, c) >= 60
    ensures UpDest(t, c) == s
  {
    OnLine(t, s, c, e);
  }

  lemma FitStops(t: Text, p: nat, e: nat, k: nat, w: nat)
    requires p <= e <= |t| && w == Width(t, p, e)
    ensures var d := Fit(t, p, e, Min(k, w));
            && (d == e <==> w <= k)
            && (d < e ==> Width(t, p, d) <= k < Width(t, p, d + 1))
  {
    FitIsFurthest(t, p, e, Min(k, w));
  }

  /** Where the walk of "up" ends on a line of width `w` below 60. */
  lemma UpStopsAt(t: Text, p: nat, s: nat, c: nat, e: nat, k: nat, w: nat)
    requires 0 < s && IsLine(t, p, s - 1) && IsLine(t, s, e) && s <= c <= e
    requires k == Column(t, c) < 60 && w == Width(t, p, s - 1) < 60
    ensures UpDest(t, c) == Fit(t, p, s - 1, Min(k, w))
  {
    OnLine(t, s, c, e);
    OnLine(t, p, s - 1, s - 1);
    OnLine(t, p, p, s - 1);
    UpUnfolds(t, p, c, s - 1, w, k);
    UpTargetSegment(w, k);
  }

  /**
   * "Up" with tabs, from the first row of a line below a line that is not wrapped.
   * The cursor is in column `f` of the screen, but the code works with `k`, the
   * column summed up backwards. It lands on the row above in column `f` or at that
   * row's end exactly when `k` is below 60 and leads there: the row is no wider than
   * either column, or has an offset in column `f` and none after it up to `k`.
   */
  lemma UpWithTabs(t: Text, p: nat, s: nat, c: nat, e: nat)
    requires 0 < s && IsLine(t, p, s - 1) && IsLine(t, s, e) && s <= c <= e
    requires Width(t, p, s - 1) < 60 && Width(t, s, c) < 60
    ensures var k, f, w := Column(t, c), Width(t, s, c), Width(t, p, s - 1);
            && At(t, c).col == f
            && (LandsOn(t, UpDest(t, c), At(t, c).row - 1, f)
                <==> k < 60 && if w <= k then w <= f else Reaches(t, p, s - 1, f, k))
  {
    var k, f, w, d := Column(t, c), Width(t, s, c), Width(t, p, s - 1), UpDest(t, c);
    if k >= 60 {
      UpToLineStart(t, s, c, e);
      RowBefore(t, p, s, c, p);
      RowBefore(t, p, s, s, p);
    } else {
      UpStopsAt(t, p, s, c, e, k, w);
      FitStops(t, p, s - 1, k, w);
      RowBefore(t, p, s, c, d);
      if k < w {
        ReachesOnlyFit(t, p, s - 1, f, k, d);
      }
    }
  }

  /**
   * Tabs do matter: from below "a" and a tab, in column 8, "up" goes to column 9,
   * because it adds up the tab before the letter.
   */
  lemma TabsMislead()
    ensures var t: Text := [97, 97, 97, 97, 97, 97, 97, 97, 97, 97, NEWLINE, 97, TAB];
            && At(t, 13) == Pos(1, 8)
            && At(t, UpDest(t, 13)) == Pos(0, 9)
            && !LandsOn(t, UpDest(t, 13), 0, 8)
  {
    var t: Text := [97, 97, 97, 97, 97, 97, 97, 97, 97, 97, NEWLINE, 97, TAB];
    LineRows(t, 0, 10, 10);
    AfterNewline(t, 10);
    assert At(t, 12) == Step(At(t, 11), t[11]) && At(t, 13) == Step(At(t, 12), t[12]);
    LineRows(t, 0, 9, 10);
    assert Column(t, 13) == ColumnBack(t, 12, 8) == ColumnBack(t, 11, 9) == 9;
    OnLine(t, 11, 13, 13);
    OnLine(t, 0, 10, 10);
    OnLine(t, 0, 0, 10);
    UpWalksTo(t, 0, 13, 10, 9, 9);
  }

  lemma FirstRowIsFirstLine(t: Text, c: nat)
    requires c <= |t| && At(t, c).row == 0
    ensures c <= LineEnd(t, 0)
  {
    var w := LineEnd(t, 0);
    LineEndBounds(t, 0);
    if w < c {
      AfterNewline(t, w);
      if w + 1 < c {
        Monotone(t, w + 1, c);
      }
    }
  }

  lemma FirstRowArithmetic(w: nat, c: nat)
    requires 0 < c < 60 && c <= w
    ensures 60 * (w / 60) + Min(c, w % 60) == c <==> w < 60
    ensures w >= 60 ==> 60 * (w / 60) + Min(c, w % 60) > c
  {
  }

  lemma FirstRowLooksAt(t: Text, c: nat, w: nat)
    requires c <= |t| && At(t, c).row == 0 && w == LineEnd(t, 0) && TabFree(t, 0, w)
    ensures c <= w && c < 60 && Column(t, c) == c && PrevLineStart(t, c) == 0
  {
    FirstRowIsFirstLine(t, c);
    LineOf(t, 0);
    LineRows(t, 0, c, w);
    OnLine(t, 0, c, w);
    ColumnTabFree(t, c);
  }

  /**
   * On the first row "up" has no row to go to: it stays where it is, unless the
   * first line is wrapped, and then it goes to the line's last row instead.
   */
  lemma UpOnFirstRow(t: Text, c: nat)
    requires 0 < c <= |t| && At(t, c).row == 0
    requires TabFree(t, 0, LineEnd(t, 0))
    ensures var w := LineEnd(t, 0);
            && UpDest(t, c) == 60 * (w / 60) + Min(c, w % 60)
            && (UpDest(t, c) == c <==> w < 60)
            && (w >= 60 ==> c < UpDest(t, c))
  {
    var w := LineEnd(t, 0);
    FirstRowLooksAt(t, c, w);
    UpWalksTo(t, 0, c, w, c, UpTarget(w, c));
    UpTargetSegment(w, c);
    FirstRowArithmetic(w, c);
  }

  /** Where "up" goes on a first line of width `w` below 60. */
  lemma UpOnFirstLine(t: Text, c: nat, e: nat, k: nat, w: nat)
    requires 0 < c <= e <= |t| && e == LineEnd(t, 0) && k == Column(t, c) && w == Width(t, 0, e) < 60
    ensures UpDest(t, c) == if k < 60 then Fit(t, 0, e, Min(k, w)) else 0
  {
    LineOf(t, 0);
    OnLine(t, 0, c, e);
    if k < 60 {
      UpUnfolds(t, 0, c, e, w, k);
      UpTargetSegment(w, k);
    }
  }

  lemma FitStaysAt(t: Text, c: nat, e: nat, k: nat, w: nat)
    requires c <= e <= |t| && w == Width(t, 0, e)
    ensures Fit(t, 0, e, Min(k, w)) == c
            <==> if c == e then w <= k else Width(t, 0, c) <= k < Width(t, 0, c + 1)
  {
    FitStops(t, 0, e, k, w);
    if c < e && Width(t, 0, c) <= k < Width(t, 0, c + 1) {
      if c + 1 < e {
        WidthGrows(t, 0, c + 1, e);
      }
      FitUnique(t, 0, e, Min(k, w), c);
    }
  }

  /**
   * The same with tabs, on a first line that is not wrapped: "up" stays exactly when
   * the backward column is below 60 and leads no further and no less far: at the
   * end of the line when it is at least the width, elsewhere when it is at least the
   * cursor's column and below that of the next offset.
   */
  lemma UpOnFirstLineWithTabs(t: Text, c: nat, e: nat, k: nat)
    requires 0 < c <= e <= |t| && e == LineEnd(t, 0) && k == Column(t, c) && Width(t, 0, e) < 60
    ensures UpDest(t, c) == c
            <==> k < 60 && if c == e then Width(t, 0, e) <= k else Width(t, 0, c) <= k < Width(t, 0, c + 1)
  {
    UpOnFirstLine(t, c, e, k, Width(t, 0, e));
    FitStaysAt(t, c, e, k, Width(t, 0, e));
  }

  // ---- down ----

  /** Offset `c` is on the line `[s, e)`, and `n` ends the next line if there is one. */
  ghost predicate OnLines(t: Text, s: nat, c: nat, e: nat, n: nat) {
    && IsLine(t, s, e) && s <= c <= e
    && (if e < |t| then IsLine(t, e + 1, n) else n == e)
  }

  /** Where "down" goes without tabs: its three cases. */
  lemma DownOffset(t: Text, s: nat, c: nat, e: nat, n: nat)
    requires OnLines(t, s, c, e, n) && TabFree(t, s, c)
    ensures DownDest(t, c) ==
              if e - c >= 60 then c + 60
              else if e == |t| then |t|
              else e + 1 + Min(c - s, n - (e + 1))
  {
    assert Column(t, c) == c - s && LineEnd(t, c) == e by {
      OnLine(t, s, c, e);
      ColumnTabFree(t, c);
    }
    if e < |t| {
      assert LineEnd(t, e + 1) == n by {
        OnLine(t, e + 1, e + 1, n);
      }
    }
  }

  /**
   * Where a cursor is without tabs: its column in a line and the line's width,
   * whether the line is the first or the last, and the width of the line below.
   */
  datatype Spot = Spot(column: nat, width: nat, first: bool, last: bool, below: nat)

  ghost function SpotOf(t: Text, s: nat, c: nat, e: nat, n: nat): Spot
    requires OnLines(t, s, c, e, n)
  {
    Spot(c - s, e - s, s == 0, e == |t|, if e < |t| then n - e - 1 else 0)
  }

  /**
   * When "down" is one row down: 60 more bytes on the line; or the last line with
   * a further row; or the last row of a line, from its first row or above a line
   * no longer than the column.
   */
  predicate DownFollowsRows(p: Spot) {
    || p.width - p.column >= 60
    || (p.last && p.column / 60 < p.width / 60)
    || (!p.last && p.column / 60 == p.width / 60 && (p.column < 60 || p.below <= p.column % 60))
  }

  lemma DownWithinLands(t: Text, s: nat, c: nat, e: nat, d: nat)
    requires IsLine(t, s, e) && s <= c <= e && TabFree(t, s, e) && d == c + 60 <= e
    ensures LandsOn(t, d, At(t, c).row + 1, At(t, c).col)
  {
    LineRows(t, s, c, e);
    LineRows(t, s, d, e);
  }

  lemma DownToEndLands(t: Text, s: nat, c: nat, p: Spot)
    requires IsLine(t, s, |t|) && s <= c <= |t| && TabFree(t, s, |t|) && |t| - c < 60
    requires p.column == c - s && p.width == |t| - s && p.last
    ensures LandsOn(t, |t|, At(t, c).row + 1, At(t, c).col) <==> DownFollowsRows(p)
  {
    LineRows(t, s, c, |t|);
    LineRows(t, s, |t|, |t|);
  }

  /** The arithmetic of a landing on the next line. */
  lemma LandingDecided(t: Text, c: nat, d: nat, r: nat, p: Spot)
    requires c <= |t| && d <= |t| && p.column <= p.width < p.column + 60 && !p.last
    requires p.below <= p.column ==> RowEnds(t, d)
    requires At(t, c) == Pos(r + p.column / 60, p.column % 60)
    requires var m := Min(p.column, p.below); At(t, d) == Pos(r + p.width / 60 + 1 + m / 60, m % 60)
    ensures LandsOn(t, d, At(t, c).row + 1, At(t, c).col) <==> DownFollowsRows(p)
  {
    var m := Min(p.column, p.below);
    if m < 60 {
      assert m / 60 == 0 && m % 60 == m;
    } else {
      assert m / 60 >= 1;
    }
    assert p.column / 60 <= p.width / 60;
  }

  /** The offset `m` bytes into the line after a line of width `w`. */
  lemma DownAcrossRows(t: Text, s: nat, e: nat, n: nat, d: nat, w: nat, m: nat)
    requires s <= e < d <= n && IsLine(t, s, e) && IsLine(t, e + 1, n) && TabFree(t, s, n)
    requires w == e - s && m == d - (e + 1)
    ensures At(t, d) == Pos(At(t, s).row + w / 60 + 1 + m / 60, m % 60)
    ensures d == n ==> RowEnds(t, d)
  {
    LineRows(t, s, e, e);
    AfterNewline(t, e);
    LineRows(t, e + 1, d, n);
    if d == n && n < |t| {
      AfterNewline(t, n);
    }
  }

  lemma DownAcrossLands(t: Text, s: nat, c: nat, e: nat, n: nat, d: nat, p: Spot)
    requires e < |t| && OnLines(t, s, c, e, n) && TabFree(t, s, n) && e - c < 60
    requires p == SpotOf(t, s, c, e, n) && d == e + 1 + Min(p.column, p.below)
    ensures LandsOn(t, d, At(t, c).row + 1, At(t, c).col) <==> DownFollowsRows(p)
  {
    LineRows(t, s, c, e);
    DownAcrossRows(t, s, e, n, d, p.width, Min(p.column, p.below));
    LandingDecided(t, c, d, At(t, s).row, p);
  }

  /**
   * "Down" is not the mirror of "up": it goes to the row below, in the same
   * column or at the end of that row, exactly when `DownFollowsRows` holds.
   */
  lemma DownIsRowBelow(t: Text, s: nat, c: nat, e: nat, n: nat)
    requires OnLines(t, s, c, e, n) && TabFree(t, s, n)
    ensures LandsOn(t, DownDest(t, c), At(t, c).row + 1, At(t, c).col)
            <==> DownFollowsRows(SpotOf(t, s, c, e, n))
  {
    var p := SpotOf(t, s, c, e, n);
    DownOffset(t, s, c, e, n);
    if e - c >= 60 {
      DownWithinLands(t, s, c, e, DownDest(t, c));
    } else if e == |t| {
      DownToEndLands(t, s, c, p);
    } else {
      DownAcrossLands(t, s, c, e, n, DownDest(t, c), p);
    }
  }

  /**
   * "Down" with tabs, where neither the line nor the next one is wrapped. The code
   * goes as many bytes into the next line as the column it summed up backwards;
   * that is the row below in the screen's column, or its end, exactly when those
   * bytes are as wide as the screen's column, or the whole line is less wide and
   * the code's column reaches its end.
   */
  lemma DownWithTabs(t: Text, s: nat, c: nat, e: nat, n: nat, k: nat, v: nat, d: nat)
    requires e < |t| && OnLines(t, s, c, e, n) && Width(t, s, e) < 60 && Width(t, e + 1, n) < 60
    requires k == Column(t, c) && v == n - (e + 1) && d == e + 1 + Min(k, v)
    ensures DownDest(t, c) == d && At(t, c).col == Width(t, s, c)
    ensures LandsOn(t, d, At(t, c).row + 1, Width(t, s, c))
            <==> Width(t, e + 1, d) == Width(t, s, c) || (v <= k && Width(t, e + 1, n) < Width(t, s, c))
  {
    DownStopsAt(t, s, c, e, n, k);
    LineStartsRow(t, s, e);
    RowOfUnwrapped(t, s, c, e);
    OffsetOfUnwrapped(t, e + 1, d, n);
    EndsOfUnwrapped(t, e + 1, d, n);
  }

  lemma DownStopsAt(t: Text, s: nat, c: nat, e: nat, n: nat, k: nat)
    requires e < |t| && OnLines(t, s, c, e, n) && Width(t, s, e) < 60 && k == Column(t, c)
    ensures DownDest(t, c) == e + 1 + Min(k, n - (e + 1))
  {
    OnLine(t, s, c, e);
    OnLine(t, e + 1, e + 1, n);
  }

  /** An offset of an unwrapped line ends its row only at the end of the line. */
  lemma EndsOfUnwrapped(t: Text, s: nat, d: nat, e: nat)
    requires IsLine(t, s, e) && s <= d <= e && At(t, s).col == 0 && Width(t, s, e) < 60
    ensures RowEnds(t, d) <==> d == e
  {
    OffsetOfUnwrapped(t, s, d, e);
    if d < e {
      OffsetOfUnwrapped(t, s, d + 1, e);
    } else if e < |t| {
      AfterNewline(t, e);
    }
  }

  // ---- up after down ----

  /**
   * When "up" takes "down" back: on the same line; or across a newline where the
   * column fits the next line and the line left is one row; or where the next line
   * is shorter than the column and the cursor happened to be where "up" comes back
   * to; or when both stay at the end of a one-row text.
   */
  predicate UpUndoesDown(p: Spot) {
    var k, w, v := p.column, p.width, p.below;
    if w - k >= 60 then true
    else if p.last then k == w && p.first && w < 60
    else if k <= v then w < 60
    else v < 60 && (k == w / 60 * 60 + v || (k == w && w % 60 <= v))
  }

  /** Where "up" goes from offset `d` of the line after `[s, e)`, relative to `s`. */
  function BackFrom(w: nat, m: nat): int {
    if m < 60 then UpTarget(w, m) else w + 1 + m - 60
  }

  lemma UpFromNextLine(t: Text, s: nat, e: nat, n: nat, d: nat, u: int)
    requires s <= e < d <= n && IsLine(t, s, e) && IsLine(t, e + 1, n) && TabFree(t, s, n)
    requires u == BackFrom(e - s, d - (e + 1))
    ensures UpDest(t, d) == s + u
  {
    if d - (e + 1) < 60 {
      UpAcross(t, s, e + 1, d, n, u);
    } else {
      UpWithin(t, e + 1, d, n);
    }
  }

  /** The arithmetic of coming back from the column reached on the next line. */
  lemma ReturnArithmetic(p: Spot)
    requires p.column <= p.width < p.column + 60 && !p.last
    ensures BackFrom(p.width, Min(p.column, p.below)) == p.column <==> UpUndoesDown(p)
  {
  }

  lemma UpAfterDownAcross(t: Text, s: nat, c: nat, e: nat, n: nat, d: nat, p: Spot)
    requires e < |t| && OnLines(t, s, c, e, n) && TabFree(t, s, n) && e - c < 60
    requires p == SpotOf(t, s, c, e, n) && d == e + 1 + Min(p.column, p.below)
    ensures UpDest(t, d) == c <==> UpUndoesDown(p)
  {
    UpFromNextLine(t, s, e, n, d, BackFrom(p.width, Min(p.column, p.below)));
    ReturnArithmetic(p);
  }

  /** From the end of the text "up" comes back to `c` only if it never left. */
  lemma UpFromEnd(t: Text, s: nat, c: nat)
    requires IsLine(t, s, |t|) && s <= c <= |t| && TabFree(t, s, |t|) && |t| - c < 60
    ensures UpDest(t, |t|) == c <==> c == |t| && s == 0 && |t| - s < 60
  {
    OnLine(t, s, |t|, |t|);
    ColumnTabFree(t, |t|);
    if |t| - s >= 60 {
      UpWithin(t, s, |t|, |t|);
    } else if |t| > 0 {
      UpStopsRightmost(t, |t|);
      if s == 0 {
        OnLine(t, 0, 0, |t|);
        UpWalksTo(t, 0, |t|, |t|, |t|, UpTarget(|t|, |t|));
      } else {
        PrevLineEnds(t, |t|);
      }
    }
  }

  lemma UpBackFrom(t: Text, s: nat, c: nat, e: nat, n: nat, d: nat, p: Spot)
    requires OnLines(t, s, c, e, n) && TabFree(t, s, n) && p == SpotOf(t, s, c, e, n)
    requires d == if p.width - p.column >= 60 then c + 60
                  else if p.last then |t|
                  else e + 1 + Min(p.column, p.below)
    ensures UpDest(t, d) == c <==> UpUndoesDown(p)
  {
    if p.width - p.column >= 60 {
      UpWithin(t, s, d, e);
    } else if p.last {
      UpFromEnd(t, s, c);
    } else {
      UpAfterDownAcross(t, s, c, e, n, d, p);
    }
  }

  /** "Up" after "down" is back where it started exactly when `UpUndoesDown` holds. */
  lemma UpAfterDown(t: Text, s: nat, c: nat, e: nat, n: nat)
    requires OnLines(t, s, c, e, n) && TabFree(t, s, n)
    ensures UpDest(t, DownDest(t, c)) == c <==> UpUndoesDown(SpotOf(t, s, c, e, n))
  {
    DownOffset(t, s, c, e, n);
    UpBackFrom(t, s, c, e, n, DownDest(t, c), SpotOf(t, s, c, e, n));
  }
}
