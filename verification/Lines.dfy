/** Logical lines of a text, and the two ways the editor measures a column. */
module Lines {
  import opened Bytes

  /** The first offset of the logical line that holds offset `c`. */
  function LineStart(t: Text, c: nat): (s: nat)
    requires c <= |t|
    ensures s <= c
  {
    if c == 0 || t[c - 1] == NEWLINE then c else LineStart(t, c - 1)
  }

  /** The offset of the newline (or of the end of the text) that closes the line of `c`. */
  function LineEnd(t: Text, c: nat): (e: nat)
    requires c <= |t|
    ensures c <= e <= |t|
    decreases |t| - c
  {
    if c == |t| || t[c] == NEWLINE then c else LineEnd(t, c + 1)
  }

  ghost predicate NoNewline(t: Text, s: nat, e: nat)
    requires s <= e <= |t|
  {
    forall k :: s <= k < e ==> t[k] != NEWLINE
  }

  lemma {:induction false} LineStartBounds(t: Text, c: nat)
    requires c <= |t|
    ensures var s := LineStart(t, c);
            (s == 0 || t[s - 1] == NEWLINE) && NoNewline(t, s, c)
  {
    if c != 0 && t[c - 1] != NEWLINE {
      LineStartBounds(t, c - 1);
    }
  }

  lemma {:induction false} LineEndBounds(t: Text, c: nat)
    requires c <= |t|
    ensures var e := LineEnd(t, c);
            (e == |t| || t[e] == NEWLINE) && NoNewline(t, c, e)
    decreases |t| - c
  {
    if c != |t| && t[c] != NEWLINE {
      LineEndBounds(t, c + 1);
    }
  }

  /** The line before that of `c`; the line of `c` itself when it is the first. */
  function PrevLineStart(t: Text, c: nat): (p: nat)
    requires c <= |t|
    ensures p <= LineStart(t, c)
  {
    var s := LineStart(t, c);
    if s == 0 then 0 else LineStart(t, s - 1)
  }

  lemma {:induction false} LineStartUnique(t: Text, c: nat, s: nat)
    requires s <= c <= |t|
    requires s == 0 || t[s - 1] == NEWLINE
    requires NoNewline(t, s, c)
    ensures LineStart(t, c) == s
  {
    if s < c {
      LineStartUnique(t, c - 1, s);
    }
  }

  lemma {:induction false} LineEndUnique(t: Text, c: nat, e: nat)
    requires c <= e <= |t|
    requires e == |t| || t[e] == NEWLINE
    requires NoNewline(t, c, e)
    ensures LineEnd(t, c) == e
    decreases e - c
  {
    if c < e {
      LineEndUnique(t, c + 1, e);
    }
  }

  /** The number of newlines before offset `c`. */
  function LineIndex(t: Text, c: nat): nat
    requires c <= |t|
  {
    if c == 0 then 0 else LineIndex(t, c - 1) + if t[c - 1] == NEWLINE then 1 else 0
  }

  lemma {:induction false} LineIndexCounts(t: Text, c: nat)
    requires c <= |t|
    ensures LineIndex(t, c) == multiset(t[..c])[10]
  {
    if c > 0 {
      LineIndexCounts(t, c - 1);
      assert t[..c] == t[..c - 1] + [t[c - 1]];
    }
  }

  lemma {:induction false} SameLine(t: Text, s: nat, e: nat)
    requires s <= e <= |t|
    requires NoNewline(t, s, e)
    ensures LineIndex(t, s) == LineIndex(t, e)
  {
    if s < e {
      SameLine(t, s, e - 1);
    }
  }

  /** One byte further along a tab-expanded line. */
  function Advance(col: nat, b: byte): (r: nat)
    ensures col < r <= col + 8
  {
    if b == TAB then (col / 8 + 1) * 8 else col + 1
  }

  /** The tab-expanded width of `t[s..e]`, measured forwards. */
  function Width(t: Text, s: nat, e: nat): (w: nat)
    requires s <= e <= |t|
    ensures e - s <= w
  {
    if e == s then 0 else Advance(Width(t, s, e - 1), t[e - 1])
  }

  lemma {:induction false} WidthGrows(t: Text, s: nat, i: nat, j: nat)
    requires s <= i < j <= |t|
    ensures Width(t, s, i) < Width(t, s, j)
  {
    if i < j - 1 {
      WidthGrows(t, s, i, j - 1);
    }
  }

  /**
   * The column that the vertical moves work with: the same sum taken backwards
   * from `i` to the start of the line, on top of `acc`.
   */
  function ColumnBack(t: Text, i: nat, acc: nat): (w: nat)
    requires i <= |t|
    ensures acc + (i - LineStart(t, i)) <= w
  {
    if i == 0 || t[i - 1] == NEWLINE then acc else ColumnBack(t, i - 1, Advance(acc, t[i - 1]))
  }

  function Column(t: Text, c: nat): (w: nat)
    requires c <= |t|
    ensures c - LineStart(t, c) <= w
  {
    ColumnBack(t, c, 0)
  }

  function Mirrored(t: Text): (m: Text)
    ensures |m| == |t|
  {
    seq(|t|, k requires 0 <= k < |t| => t[|t| - 1 - k])
  }

  lemma {:induction false} ColumnBackMirrored(t: Text, s: nat, c: nat, i: nat, m: Text)
    requires c <= |t| && s == LineStart(t, c) <= i <= c && m == Mirrored(t[s..c])
    ensures ColumnBack(t, i, Width(m, 0, c - i)) == Width(m, 0, c - s)
    decreases i
  {
    LineStartBounds(t, c);
    if s < i {
      assert m[c - i] == t[s..c][i - 1 - s] == t[i - 1];
      ColumnBackMirrored(t, s, c, i - 1, m);
    }
  }

  /** The column is the width of the mirror image of what is left of the cursor on its line. */
  lemma ColumnIsMirroredWidth(t: Text, c: nat)
    requires c <= |t|
    ensures var s := LineStart(t, c); Column(t, c) == Width(Mirrored(t[s..c]), 0, c - s)
  {
    var s := LineStart(t, c);
    ColumnBackMirrored(t, s, c, c, Mirrored(t[s..c]));
  }

  ghost predicate TabFree(t: Text, s: nat, e: nat)
    requires s <= e <= |t|
  {
    forall k :: s <= k < e ==> t[k] != TAB
  }

  lemma {:induction false} WidthTabFree(t: Text, s: nat, e: nat)
    requires s <= e <= |t| && TabFree(t, s, e)
    ensures Width(t, s, e) == e - s
  {
    if s < e {
      WidthTabFree(t, s, e - 1);
    }
  }

  lemma {:induction false} ColumnBackTabFree(t: Text, i: nat, acc: nat)
    requires i <= |t| && TabFree(t, LineStart(t, i), i)
    ensures ColumnBack(t, i, acc) == acc + (i - LineStart(t, i))
  {
    if i != 0 && t[i - 1] != NEWLINE {
      ColumnBackTabFree(t, i - 1, acc + 1);
    }
  }

  /** Without tabs the backward column is the distance from the line's start. */
  lemma ColumnTabFree(t: Text, c: nat)
    requires c <= |t| && TabFree(t, LineStart(t, c), c)
    ensures Column(t, c) == c - LineStart(t, c)
  {
    ColumnBackTabFree(t, c, 0);
  }
}
