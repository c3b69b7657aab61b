/**
 * Typing and backspaces under a selection, which they leave as it is: the raw
 * storage behaves like the paper of a typewriter, and a copy reads the paper.
 */
module Edits {
  import opened Bytes
  import opened GapModel
  import opened Highlights
  import opened Selection

  predicate IsEdit(cmd: Command) {
    cmd.Type? || cmd.Backspace?
  }

  predicate AllEdits(cmds: seq<Command>) {
    forall k :: 0 <= k < |cmds| ==> IsEdit(cmds[k])
  }

  /** Where the cursor is after the edits, from offset `c`. */
  function CursorAfter(c: nat, cmds: seq<Command>): nat {
    if cmds == [] then c
    else
      var d := CursorAfter(c, cmds[..|cmds| - 1]);
      if cmds[|cmds| - 1].Type? then d + 1 else if d == 0 then 0 else d - 1
  }

  /** What position `i` of the paper shows: the last byte typed there, or `b` if there was none. */
  function Paper(b: byte, c: nat, cmds: seq<Command>, i: nat): byte {
    if cmds == [] then b
    else
      var before, cmd := cmds[..|cmds| - 1], cmds[|cmds| - 1];
      if cmd.Type? && CursorAfter(c, before) == i then Stored(cmd.b) else Paper(b, c, before, i)
  }

  /** One edit on the storage; a growth keeps what is less than its amount behind the gap in its place. */
  lemma EditOnStorage(h: Gap, cmd: Command, i: nat)
    requires h.Valid() && IsEdit(cmd) && i < |h.data| && i < h.end + GAP_SIZE
    ensures var r := GapStep(h, cmd);
            && h.end <= r.end && |h.data| <= |r.data|
            && r.start == (if cmd.Type? then h.start + 1 else if h.start == 0 then 0 else h.start - 1)
            && r.data[i] == if cmd.Type? && h.start == i then Stored(cmd.b) else h.data[i]
  {
  }

  lemma {:induction false} EditsOnPaper(g: Gap, cmds: seq<Command>, i: nat)
    requires g.Valid() && AllEdits(cmds) && i < |g.data| && i < g.end + GAP_SIZE
    ensures var r := GapRun(g, cmds);
            && g.end <= r.end && |g.data| <= |r.data| && r.start == CursorAfter(g.start, cmds)
            && r.data[i] == Paper(g.data[i], g.start, cmds, i)
  {
    if cmds != [] {
      var n := |cmds| - 1;
      EditsOnPaper(g, cmds[..n], i);
      EditOnStorage(GapRun(g, cmds[..n]), cmds[n], i);
    }
  }

  lemma EditKeepsRight(d: Doc, cmd: Command)
    requires d.Valid() && IsEdit(cmd)
    ensures DocStep(d, cmd).text[DocStep(d, cmd).cursor..] == d.text[d.cursor..]
    ensures DocStep(d, cmd).cursor
            == if cmd.Type? then d.cursor + 1 else if d.cursor == 0 then 0 else d.cursor - 1
  {
  }

  /** The text right of the cursor moves along with it. */
  lemma {:induction false} EditsKeepRight(d: Doc, cmds: seq<Command>)
    requires d.Valid() && AllEdits(cmds)
    ensures var r := DocRun(d, cmds);
            r.cursor == CursorAfter(d.cursor, cmds) && r.text[r.cursor..] == d.text[d.cursor..]
  {
    if cmds != [] {
      var n := |cmds| - 1;
      EditsKeepRight(d, cmds[..n]);
      EditKeepsRight(DocRun(d, cmds[..n]), cmds[n]);
    }
  }

  /**
   * Position `i`, which held `b` before the edits, is read as the text then has it:
   * it is left of the cursor, or the paper happens to show the byte that has moved
   * to offset `i`.
   */
  ghost predicate StillRight(b: byte, t: Text, c: nat, cmds: seq<Command>, i: nat) {
    var d := CursorAfter(c, cmds);
    i < d || (c + (i - d) < |t| && Paper(b, c, cmds, i) == t[c + (i - d)])
  }

  /** The edited buffer: its text by the old text's right part, its storage by the paper. */
  ghost predicate Edited(g: Gap, cmds: seq<Command>, r: Gap) {
    && g.Valid() && r.Valid() && r.start == CursorAfter(g.start, cmds)
    && r.Content()[r.start..] == g.Content()[g.start..]
  }

  lemma EditsEdit(g: Gap, cmds: seq<Command>)
    requires g.Valid() && AllEdits(cmds)
    ensures Edited(g, cmds, GapRun(g, cmds))
  {
    RunRefines(g, cmds);
    EditsKeepRight(View(g), cmds);
  }

  lemma RightOfCursor(a: Text, d: nat, b: Text, c: nat, i: nat)
    requires d <= |a| && c <= |b| && a[d..] == b[c..] && d <= i
    ensures i < |a| <==> c + (i - d) < |b|
    ensures i < |a| ==> a[i] == b[c + (i - d)]
  {
    assert |a| - d == |b| - c;
    if i < |a| {
      assert a[i] == a[d..][i - d] && b[c + (i - d)] == b[c..][i - d];
    }
  }

  lemma ReadsRight(g: Gap, cmds: seq<Command>, i: nat, r: Gap)
    requires g.Valid() && AllEdits(cmds) && i < |g.data| && i < g.end + GAP_SIZE
    requires r == GapRun(g, cmds) && Edited(g, cmds, r)
    ensures i < |r.data|
    ensures Agrees(r.data, r.Content(), i) <==> StillRight(g.data[i], g.Content(), g.start, cmds, i)
  {
    EditsOnPaper(g, cmds, i);
    if i >= r.start {
      RightOfCursor(r.Content(), r.start, g.Content(), g.start, i);
    }
  }

  /**
   * A copy after edits is the highlighted text exactly when every selected position
   * is still right.
   */
  lemma EditedCopyExact(g: Gap, cmds: seq<Command>, sel: Span, lo: nat, hi: nat)
    requires g.Valid() && AllEdits(cmds) && sel.active
    requires lo == Min(sel.start, sel.end) && hi == Max(sel.start, sel.end)
    requires hi <= |g.data| && hi <= g.end + GAP_SIZE
    ensures hi <= |GapRun(g, cmds).data|
    ensures Copied(GapRun(g, cmds), lo, hi) == Highlighted(GapRun(g, cmds).Content(), sel)
            <==> forall i: nat :: lo <= i < hi ==> StillRight(g.data[i], g.Content(), g.start, cmds, i)
  {
    var r := GapRun(g, cmds);
    EditsEdit(g, cmds);
    if lo < hi {
      ReadsRight(g, cmds, hi - 1, r);
      forall i: nat | lo <= i < hi
        ensures Agrees(r.data, r.Content(), i) <==> StillRight(g.data[i], g.Content(), g.start, cmds, i)
      {
        ReadsRight(g, cmds, i, r);
      }
      SlicesAgree(r.data, r.Content(), sel, lo, hi);
    } else {
      RunGrows(g, cmds);
    }
  }

  lemma {:induction false} RunGrows(g: Gap, cmds: seq<Command>)
    requires g.Valid() && AllEdits(cmds)
    ensures |g.data| <= |GapRun(g, cmds).data|
  {
    if cmds != [] {
      RunGrows(g, cmds[..|cmds| - 1]);
    }
  }

  /** Position `i` of the storage is offset `i` of the text. */
  ghost predicate Agrees(data: seq<byte>, t: Text, i: nat) {
    i < |data| && i < |t| && data[i] == t[i]
  }

  lemma SlicesAgree(data: seq<byte>, t: Text, sel: Span, lo: nat, hi: nat)
    requires sel.active && lo == Min(sel.start, sel.end) && hi == Max(sel.start, sel.end)
    requires lo < hi <= |data|
    ensures data[lo..hi] == Highlighted(t, sel) <==> forall i: nat :: lo <= i < hi ==> Agrees(data, t, i)
  {
    if hi <= |t| {
      SameSlices(data, t, lo, hi);
      assert forall i: nat :: lo <= i < hi ==> (Agrees(data, t, i) <==> data[i] == t[i]);
    } else {
      assert |Highlighted(t, sel)| < |data[lo..hi]|;
      assert !Agrees(data, t, hi - 1);
    }
  }

  // ---- the plain cases ----

  /** Once the cursor is at or past both ends, whatever was typed and erased, the copy is right. */
  lemma PastBothEnds(g: Gap, cmds: seq<Command>, sel: Span, lo: nat, hi: nat)
    requires g.Valid() && AllEdits(cmds) && sel.active
    requires lo == Min(sel.start, sel.end) && hi == Max(sel.start, sel.end)
    requires hi <= |g.data| && hi <= g.end + GAP_SIZE && hi <= CursorAfter(g.start, cmds)
    ensures hi <= |GapRun(g, cmds).data|
    ensures Copied(GapRun(g, cmds), lo, hi) == Highlighted(GapRun(g, cmds).Content(), sel)
  {
    EditedCopyExact(g, cmds, sel, lo, hi);
  }

  function Backspaces(j: nat): (cmds: seq<Command>)
    ensures |cmds| == j && AllEdits(cmds)
  {
    seq(j, _ => Backspace)
  }

  lemma {:induction false} BackspacesErase(b: byte, c: nat, j: nat, i: nat)
    ensures CursorAfter(c, Backspaces(j)) == (if j <= c then c - j else 0)
    ensures Paper(b, c, Backspaces(j), i) == b
  {
    if j > 0 {
      BackspacesErase(b, c, j - 1, i);
      assert Backspaces(j)[..j - 1] == Backspaces(j - 1);
    }
  }

  /** Erased bytes stay on the paper: the copy is what it was before the backspaces. */
  lemma ErasedCopy(g: Gap, j: nat, lo: nat, hi: nat)
    requires g.Valid() && lo <= hi <= |g.data| && hi <= g.end + GAP_SIZE
    ensures hi <= |GapRun(g, Backspaces(j)).data|
    ensures Copied(GapRun(g, Backspaces(j)), lo, hi) == Copied(g, lo, hi)
  {
    var r := GapRun(g, Backspaces(j));
    RunGrows(g, Backspaces(j));
    forall i | lo <= i < hi
      ensures r.data[i] == g.data[i]
    {
      EditsOnPaper(g, Backspaces(j), i);
      BackspacesErase(g.data[i], g.start, j, i);
    }
    SameSlices(r.data, g.data, lo, hi);
  }

  /** Offset `i` has the same byte `j` bytes further. */
  ghost predicate RecursAfter(t: Text, i: nat, j: nat) {
    i + j < |t| && t[i] == t[i + j]
  }

  /** After `j` backspaces an offset is right when the text has the same byte `j` bytes further. */
  lemma ErasedStillRight(t: Text, c: nat, j: nat, i: nat)
    requires j <= c <= |t| && i < c
    ensures StillRight(t[i], t, c, Backspaces(j), i) <==> i < c - j || RecursAfter(t, i, j)
  {
    BackspacesErase(t[i], c, j, i);
  }

  lemma ErasedAllRight(t: Text, lo: nat, c: nat, j: nat)
    requires j <= c <= |t|
    ensures (forall i: nat :: lo <= i < c ==> StillRight(t[i], t, c, Backspaces(j), i))
            <==> forall i: nat :: Max(lo, c - j) <= i < c ==> RecursAfter(t, i, j)
  {
    forall i: nat | lo <= i < c
      ensures StillRight(t[i], t, c, Backspaces(j), i) <==> i < c - j || RecursAfter(t, i, j)
    {
      ErasedStillRight(t, c, j, i);
    }
  }
}
