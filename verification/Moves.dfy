/**
 * Where each cursor command goes. A command is a trip: some steps left, then
 * some steps right, because that is what it does to the gap.
 */
module Moves {
  import opened Bytes
  import opened Lines

  datatype Move = Up | Down | Left | Right | WordLeft | WordRight

  datatype Trip = Trip(left: nat, right: nat)

  /** The furthest offset in `[s, e]` whose width from `s` is at most `target`. */
  function Fit(t: Text, s: nat, e: nat, target: nat): (p: nat)
    requires s <= e <= |t|
    ensures s <= p <= e
  {
    if e == s || Width(t, s, e) <= target then e else Fit(t, s, e - 1, target)
  }

  lemma {:induction false} FitIsFurthest(t: Text, s: nat, e: nat, target: nat)
    requires s <= e <= |t|
    ensures var p := Fit(t, s, e, target);
            Width(t, s, p) <= target && forall k :: p < k <= e ==> Width(t, s, k) > target
  {
    if e != s && Width(t, s, e) > target {
      FitIsFurthest(t, s, e - 1, target);
    }
  }

  lemma {:induction false} FitUnique(t: Text, s: nat, e: nat, target: nat, p: nat)
    requires s <= p <= e <= |t|
    requires Width(t, s, p) <= target
    requires p == e || target < Width(t, s, p + 1)
    ensures Fit(t, s, e, target) == p
  {
    if p < e {
      if p + 1 < e {
        WidthGrows(t, s, p + 1, e);
      }
      FitUnique(t, s, e - 1, target, p);
    }
  }

  function UpTrip(t: Text, c: nat): (r: Trip)
    requires c <= |t|
    ensures r.left <= c && c - r.left + r.right <= |t|
  {
    var col := Column(t, c);
    var s := LineStart(t, c);
    if c == 0 then
      Trip(0, 0)
    else if col >= 60 then
      Trip(Min(60, c - s), 0)
    else
      var p := PrevLineStart(t, c);
      var e := LineEnd(t, p);
      Trip(c - p, Fit(t, p, e, UpTarget(Width(t, p, e), col)) - p)
  }

  /** The offset "up" leaves the cursor at. */
  function UpDest(t: Text, c: nat): (d: nat)
    requires c <= |t|
    ensures d <= |t|
  {
    var r := UpTrip(t, c);
    c - r.left + r.right
  }

  /** The width at which "up" stops on a line of width `w`, coming from column `col`. */
  function UpTarget(w: nat, col: nat): nat {
    Min(w / 60 * 60 + col % 60, w)
  }

  function DownTrip(t: Text, c: nat): (r: Trip)
    requires c <= |t|
    ensures r.left == 0 && c + r.right <= |t|
  {
    var e := LineEnd(t, c);
    if e - c >= 60 then
      Trip(0, 60)
    else if e == |t| then
      Trip(0, e - c)
    else
      Trip(0, e + 1 - c + Min(Column(t, c), LineEnd(t, e + 1) - (e + 1)))
  }

  /** The offset "down" leaves the cursor at. */
  function DownDest(t: Text, c: nat): (d: nat)
    requires c <= |t|
    ensures d <= |t|
  {
    c + DownTrip(t, c).right
  }

  /** Just after the nearest space before `c`, or the start of the text. */
  function WordStart(t: Text, c: nat): (p: nat)
    requires c <= |t|
    ensures p <= c
  {
    if c == 0 || t[c - 1] == SPACE then c else WordStart(t, c - 1)
  }

  /** The nearest space at or after `c`, or the end of the text. */
  function WordEnd(t: Text, c: nat): (p: nat)
    requires c <= |t|
    ensures c <= p <= |t|
    decreases |t| - c
  {
    if c == |t| || t[c] == SPACE then c else WordEnd(t, c + 1)
  }

  function TripOf(m: Move, t: Text, c: nat): (r: Trip)
    requires c <= |t|
    ensures r.left <= c && c - r.left + r.right <= |t|
  {
    match m
    case Up => UpTrip(t, c)
    case Down => DownTrip(t, c)
    case Left => Trip(if c == 0 then 0 else 1, 0)
    case Right => Trip(0, if c == |t| then 0 else 1)
    case WordLeft => Trip(if c == 0 then 0 else c - WordStart(t, c - 1), 0)
    case WordRight => Trip(0, if c == |t| then 0 else WordEnd(t, c + 1) - c)
  }

  /** The offset a command leaves the cursor at. */
  function Dest(m: Move, t: Text, c: nat): (d: nat)
    requires c <= |t|
    ensures d <= |t|
    ensures m == Up ==> d == UpDest(t, c)
    ensures m == Down ==> d == DownDest(t, c)
  {
    var r := TripOf(m, t, c);
    c - r.left + r.right
  }

  /** The lowest offset the cursor passes on the way. */
  function Lowest(m: Move, t: Text, c: nat): (d: nat)
    requires c <= |t|
    ensures d <= c && d <= Dest(m, t, c)
  {
    c - TripOf(m, t, c).left
  }

  // ---- what the commands promise ----

  lemma {:induction false} WordStartNearest(t: Text, c: nat)
    requires c <= |t|
    ensures var p := WordStart(t, c);
            (p == 0 || t[p - 1] == SPACE) && forall k :: p <= k < c ==> t[k] != SPACE
  {
    if c != 0 && t[c - 1] != SPACE {
      WordStartNearest(t, c - 1);
    }
  }

  lemma {:induction false} WordEndNearest(t: Text, c: nat)
    requires c <= |t|
    ensures var p := WordEnd(t, c);
            (p == |t| || t[p] == SPACE) && forall k :: c <= k < p ==> t[k] != SPACE
    decreases |t| - c
  {
    if c != |t| && t[c] != SPACE {
      WordEndNearest(t, c + 1);
    }
  }

  /**
   * Word-left stops at the nearest offset before the cursor that starts the
   * text or follows a space: no byte between, up to the one stepped over first,
   * is a space.
   */
  lemma WordLeftNearest(t: Text, c: nat)
    requires 0 < c <= |t|
    ensures var d := Dest(WordLeft, t, c);
            && d < c && (d == 0 || t[d - 1] == SPACE)
            && forall k :: d <= k < c - 1 ==> t[k] != SPACE
  {
    WordStartNearest(t, c - 1);
  }

  /** Word-right stops at the nearest offset after the cursor that ends the text or has a space. */
  lemma WordRightNearest(t: Text, c: nat)
    requires c < |t|
    ensures var d := Dest(WordRight, t, c);
            && c < d && (d == |t| || t[d] == SPACE)
            && forall k :: c < k < d ==> t[k] != SPACE
  {
    WordEndNearest(t, c + 1);
  }

  /** At the start of the text nothing goes left or up, at its end nothing right or down. */
  lemma NowhereToGo(t: Text)
    ensures Dest(Left, t, 0) == Dest(WordLeft, t, 0) == Dest(Up, t, 0) == 0
    ensures Dest(Right, t, |t|) == Dest(WordRight, t, |t|) == Dest(Down, t, |t|) == |t|
  {
  }

  /** From column 60 of its line on "up" goes 60 bytes back, but not past the start of the line. */
  lemma UpASegmentBack(t: Text, c: nat)
    requires c <= |t| && Column(t, c) >= 60
    ensures UpDest(t, c) == Max(LineStart(t, c), c - Min(60, c))
  {
  }

  /**
   * "Up" across a newline, tabs allowed: the cursor stops at the rightmost
   * offset of the target line that is not wider than the target, and it stops
   * at the newline only because the target is the full width of the line.
   */
  lemma UpStopsRightmost(t: Text, c: nat)
    requires 0 < c <= |t| && Column(t, c) < 60
    ensures var p := PrevLineStart(t, c); var e := LineEnd(t, p);
            var w := Width(t, p, e); var d := UpDest(t, c);
            var target := Min(w / 60 * 60 + Column(t, c) % 60, w);
            && LineStart(t, d) == p && d <= e
            && Width(t, p, d) <= target
            && (forall k :: d < k <= e ==> Width(t, p, k) > target)
            && (d == e <==> target == w)
  {
    var p := PrevLineStart(t, c);
    PrevLineIsALine(t, c);
    FitOnLine(t, p, LineEnd(t, p), UpTarget(Width(t, p, LineEnd(t, p)), Column(t, c)));
  }

  lemma PrevLineIsALine(t: Text, c: nat)
    requires c <= |t|
    ensures var p := PrevLineStart(t, c); p == 0 || t[p - 1] == NEWLINE
  {
    LineStartBounds(t, c);
    if LineStart(t, c) > 0 {
      LineStartBounds(t, LineStart(t, c) - 1);
    }
  }

  /** The furthest offset of a line for a width that the line has. */
  lemma FitOnLine(t: Text, p: nat, e: nat, target: nat)
    requires p <= |t| && (p == 0 || t[p - 1] == NEWLINE) && e == LineEnd(t, p) && target <= Width(t, p, e)
    ensures var d := Fit(t, p, e, target);
            && LineStart(t, d) == p && Width(t, p, d) <= target
            && (forall k :: d < k <= e ==> Width(t, p, k) > target)
            && (d == e <==> target == Width(t, p, e))
  {
    LineEndBounds(t, p);
    FitIsFurthest(t, p, e, target);
    var d := Fit(t, p, e, target);
    LineStartUnique(t, d, p);
    if d < e {
      assert Width(t, p, e) > target;
    }
  }

  /** The line before the newline that precedes `c` ends at that newline. */
  lemma PrevLineEnds(t: Text, c: nat)
    requires c <= |t| && LineStart(t, c) > 0
    ensures LineEnd(t, PrevLineStart(t, c)) == LineStart(t, c) - 1
  {
    LineStartBounds(t, c);
    LineStartBounds(t, LineStart(t, c) - 1);
    LineEndUnique(t, PrevLineStart(t, c), LineStart(t, c) - 1);
  }

  /** "Up" keeps the logical line or goes to the one before, whatever the text. */
  lemma UpLineIndex(t: Text, c: nat)
    requires c <= |t|
    ensures LineIndex(t, UpDest(t, c)) == LineIndex(t, c)
            || LineIndex(t, UpDest(t, c)) + 1 == LineIndex(t, c)
  {
    var d := UpDest(t, c);
    var s := LineStart(t, c);
    LineStartBounds(t, c);
    SameLine(t, s, c);
    if c == 0 {
    } else if Column(t, c) >= 60 {
      SameLine(t, s, d);
    } else {
      UpStopsRightmost(t, c);
      var p := PrevLineStart(t, c);
      LineStartBounds(t, d);
      SameLine(t, p, d);
      if s > 0 {
        LineStartBounds(t, s - 1);
        SameLine(t, p, s - 1);
      }
    }
  }

  /** "Down" keeps the logical line or goes to the next one, whatever the text. */
  lemma DownLineIndex(t: Text, c: nat)
    requires c <= |t|
    ensures LineIndex(t, DownDest(t, c)) == LineIndex(t, c)
            || LineIndex(t, DownDest(t, c)) == LineIndex(t, c) + 1
  {
    var d := DownDest(t, c);
    var e := LineEnd(t, c);
    LineEndBounds(t, c);
    SameLine(t, c, Min(d, e));
    if e < d {
      SameLine(t, c, e);
      LineEndBounds(t, e + 1);
      SameLine(t, e + 1, d);
    }
  }
}
