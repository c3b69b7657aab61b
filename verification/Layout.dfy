/** The rows and columns that the view gives to the offsets of a text. */
module Layout {
  import opened Bytes
  import opened Lines

  datatype Pos = Pos(row: nat, col: nat)

  /** One byte further on the screen: newlines and the 60th column open a row. */
  function Step(p: Pos, b: byte): (q: Pos)
    ensures q.col < 60
    ensures (q.row == p.row && p.col < q.col) || (q.row == p.row + 1 && q.col == 0)
  {
    if b == NEWLINE then Pos(p.row + 1, 0)
    else
      var col := if b == TAB then p.col + (8 - p.col % 8) else p.col + 1;
      if col >= 60 then Pos(p.row + 1, 0) else Pos(p.row, col)
  }

  /** Where the view puts offset `n`. */
  function At(t: Text, n: nat): (p: Pos)
    requires n <= |t|
    ensures p.col < 60
  {
    if n == 0 then Pos(0, 0) else Step(At(t, n - 1), t[n - 1])
  }

  /** Rows never decrease, and on one row columns increase. */
  lemma {:induction false} Monotone(t: Text, i: nat, j: nat)
    requires i < j <= |t|
    ensures At(t, i).row < At(t, j).row
            || (At(t, i).row == At(t, j).row && At(t, i).col < At(t, j).col)
  {
    if i < j - 1 {
      Monotone(t, i, j - 1);
    }
  }

  /** The greatest column on row `r` among the offsets up to `n`; 0 when it has none. */
  function WidthUpTo(t: Text, r: int, n: nat): nat
    requires n <= |t|
  {
    var here := if At(t, n).row == r then At(t, n).col else 0;
    if n == 0 then here else Max(here, WidthUpTo(t, r, n - 1))
  }

  /** How far row `r` reaches. */
  function RowWidth(t: Text, r: int): nat {
    WidthUpTo(t, r, |t|)
  }

  lemma {:induction false} WidthUpToCovers(t: Text, k: nat, n: nat)
    requires k <= n <= |t|
    ensures At(t, k).col <= WidthUpTo(t, At(t, k).row, n)
  {
    if k < n {
      WidthUpToCovers(t, k, n - 1);
    }
  }

  lemma {:induction false} WidthUpToLeast(t: Text, r: int, n: nat, w: nat)
    requires n <= |t|
    requires forall k :: 0 <= k <= n && At(t, k).row == r ==> At(t, k).col <= w
    ensures WidthUpTo(t, r, n) <= w
  {
    if n > 0 {
      WidthUpToLeast(t, r, n - 1, w);
    }
  }

  /** No offset of a row is further right than the row's width. */
  lemma RowWidthCovers(t: Text, k: nat)
    requires k <= |t|
    ensures At(t, k).col <= RowWidth(t, At(t, k).row)
  {
    WidthUpToCovers(t, k, |t|);
  }

  lemma AfterOnRow(t: Text, e: nat, k: nat)
    requires e < k <= |t|
    requires At(t, e + 1).row != At(t, e).row
    ensures At(t, k).row != At(t, e).row
  {
    Monotone(t, e, e + 1);
    if e + 1 < k {
      Monotone(t, e + 1, k);
    }
  }

  /** `e` is the last offset of its row. */
  ghost predicate RowEnds(t: Text, e: nat)
    requires e <= |t|
  {
    e == |t| || At(t, e + 1).row != At(t, e).row
  }

  /** Offset `d` is in column `col` of row `r`, or at the end of that row when it is shorter. */
  ghost predicate LandsOn(t: Text, d: nat, r: int, col: nat) {
    d <= |t| && At(t, d).row == r
    && (At(t, d).col == col || (At(t, d).col < col && RowEnds(t, d)))
  }

  /** The last offset of a row gives the row its width. */
  lemma RowWidthAtEnd(t: Text, e: nat)
    requires e <= |t| && RowEnds(t, e)
    ensures RowWidth(t, At(t, e).row) == At(t, e).col
  {
    var r := At(t, e).row;
    forall k | 0 <= k <= |t| && At(t, k).row == r
      ensures At(t, k).col <= At(t, e).col
    {
      if k < e {
        Monotone(t, k, e);
      } else if e < k {
        AfterOnRow(t, e, k);
      }
    }
    WidthUpToLeast(t, r, |t|, At(t, e).col);
    WidthUpToCovers(t, e, |t|);
  }

  /** An offset short of its row's width has the next column's offset on the same row. */
  lemma ShortOfWidth(t: Text, d: nat)
    requires d <= |t| && !RowEnds(t, d)
    ensures At(t, d).col < RowWidth(t, At(t, d).row)
  {
    WidthUpToCovers(t, d + 1, |t|);
    Monotone(t, d, d + 1);
  }

  /** Landing is the minimum of the column asked for and the width of the row. */
  lemma LandsOnMin(t: Text, d: nat, r: int, col: nat)
    requires d <= |t| && At(t, d).row == r
    ensures LandsOn(t, d, r, col) <==> At(t, d).col == Min(col, RowWidth(t, r))
  {
    RowWidthCovers(t, d);
    if RowEnds(t, d) {
      RowWidthAtEnd(t, d);
    } else {
      ShortOfWidth(t, d);
    }
  }

  lemma LineStartColumn(t: Text, c: nat)
    requires c <= |t|
    ensures At(t, LineStart(t, c)).col == 0
  {
    var s := LineStart(t, c);
    LineStartBounds(t, c);
    if s > 0 {
      assert At(t, s) == Step(At(t, s - 1), t[s - 1]);
    }
  }

  /** A line without tabs is cut into rows of exactly 60 columns. */
  lemma {:induction false} Segments(t: Text, s: nat, k: nat)
    requires s <= k <= |t| && TabFree(t, s, k)
    requires NoNewline(t, s, k)
    requires At(t, s).col == 0
    ensures At(t, k) == Pos(At(t, s).row + (k - s) / 60, (k - s) % 60)
  {
    if s < k {
      Segments(t, s, k - 1);
    }
  }
}
