/** Select with shift and arrows, then copy: what arrives on the clipboard. */
module Copying {
  import opened Bytes
  import opened Moves
  import opened GapModel
  import opened Highlights
  import opened Selection
  import opened EditorModel
  import opened Disks
  import opened Edits

  /** The arrow keys of a selection, with or without control. */
  predicate Selecting(es: seq<Event>) {
    forall i :: 0 <= i < |es| ==> es[i].shift && IsArrow(es[i].key)
  }

  function MovesOf(es: seq<Event>): (ms: seq<Move>)
    requires Selecting(es)
    ensures |ms| == |es|
  {
    if es == [] then []
    else MovesOf(es[..|es| - 1]) + [MoveOf(es[|es| - 1].key, es[|es| - 1].ctrl)]
  }

  function Pressed(es: seq<Event>): (ins: seq<Input>)
    ensures |ins| == |es| && forall i :: 0 <= i < |es| ==> ins[i] == Press(es[i])
  {
    seq(|es|, i requires 0 <= i < |es| => Press(es[i]))
  }

  /** A state from which a selection starts. */
  ghost predicate Unselected(s: State) {
    Inv(s) && s.mode != Client && !s.dialog.active && !s.span.active
  }

  /** The state after the moves, with the selection from the anchor to the cursor. */
  ghost predicate Selected(s: State, r: State, es: seq<Event>)
    requires Inv(s) && Selecting(es)
  {
    && Inv(r) && r.gap == Travels(s.gap, MovesOf(es))
    && r.mode == s.mode && r.dialog == s.dialog
    && r.span == if es == [] then NONE else Span(true, s.gap.start, r.gap.start)
  }

  /** What one arrow key with shift does. */
  ghost predicate Stretched(r: State, e: Event, q: State)
    requires Inv(r) && IsArrow(e.key)
  {
    && Inv(q) && q.gap == Travel(r.gap, MoveOf(e.key, e.ctrl)) && q.mode == r.mode && q.dialog == r.dialog
    && q.span == Span(true, if r.span.active then r.span.start else r.gap.start, q.gap.start)
  }

  lemma ArrowKey(r: State, e: Event)
    requires Inv(r) && !r.dialog.active && e.shift && IsArrow(e.key)
    ensures Stretched(r, e, React(r, Press(e)))
  {
  }

  lemma SelectsOne(s: State, r: State, es: seq<Event>, e: Event, q: State)
    requires Unselected(s) && Selecting(es) && Selected(s, r, es)
    requires e.shift && IsArrow(e.key) && Stretched(r, e, q)
    ensures Selecting(es + [e]) && Selected(s, q, es + [e])
  {
    assert (es + [e])[..|es|] == es;
    assert MovesOf(es + [e])[..|es|] == MovesOf(es);
  }

  lemma PressedAppends(es: seq<Event>, e: Event)
    ensures Pressed(es + [e]) == Pressed(es) + [Press(e)]
  {
  }

  lemma SelectingMore(s: State, es: seq<Event>, e: Event, r: State, q: State)
    requires Unselected(s) && Selecting(es) && AllPossible(Pressed(es))
    requires r == Run(s, Pressed(es)) && Selected(s, r, es)
    requires e.shift && IsArrow(e.key) && q == React(r, Press(e))
    ensures Selecting(es + [e]) && AllPossible(Pressed(es + [e]))
    ensures q == Run(s, Pressed(es + [e])) && Selected(s, q, es + [e])
  {
    PressedAppends(es, e);
    RunOneMore(s, Pressed(es), Press(e));
    ArrowKey(r, e);
    SelectsOne(s, r, es, e, q);
  }

  lemma {:induction false} SelectingRun(s: State, es: seq<Event>)
    requires Unselected(s) && Selecting(es)
    ensures AllPossible(Pressed(es)) && Selected(s, Run(s, Pressed(es)), es)
  {
    if es != [] {
      var before, e := es[..|es| - 1], es[|es| - 1];
      assert before + [e] == es;
      SelectingRun(s, before);
      var r := Run(s, Pressed(before));
      SelectingMore(s, before, e, r, React(r, Press(e)));
    }
  }

  const COPY_PRESS := Press(Event(CopyKey, NUL, false, false))

  lemma CopyTakes(s: State)
    requires Inv(s) && s.mode != Client && !s.dialog.active && s.span.active
    ensures React(s, COPY_PRESS).clip
            == Copied(s.gap, Min(s.span.start, s.span.end), Max(s.span.start, s.span.end))
  {
  }

  /**
   * Copy after a selection: forwards the clipboard is the selected text, always;
   * backwards it is the selected text exactly when the bytes the gap has run
   * over repeat.
   */
  lemma CopyAfterSelecting(s: State, es: seq<Event>)
    requires Unselected(s) && Selecting(es) && es != []
    ensures AllPossible(Pressed(es) + [COPY_PRESS])
    ensures var clip := Run(s, Pressed(es) + [COPY_PRESS]).clip;
            var t, a, c := s.gap.Content(), s.gap.start, Travels(s.gap, MovesOf(es)).start;
            && c <= |t|
            && (a <= c ==> clip == t[a..c])
            && (c < a ==> (clip == t[c..a]
                           <==> forall i: nat :: Overrun(s.gap, MovesOf(es), i) ==> Repeats(s.gap, i)))
  {
    SelectingRun(s, es);
    var r := Run(s, Pressed(es));
    RunOneMore(s, Pressed(es), COPY_PRESS);
    CopyTakes(r);
    TravelsKeepText(s.gap, MovesOf(es));
    if s.gap.start <= r.gap.start {
      ForwardCopy(s.gap, MovesOf(es));
    } else {
      BackwardCopyExact(s.gap, MovesOf(es));
    }
  }

  function ShiftLefts(n: nat): (es: seq<Event>)
    ensures |es| == n && Selecting(es)
  {
    seq(n, _ => SHIFT_LEFT)
  }

  lemma {:induction false} ShiftLeftsMove(n: nat)
    ensures MovesOf(ShiftLefts(n)) == LeftMoves(n)
  {
    if n > 0 {
      ShiftLeftsMove(n - 1);
      assert ShiftLefts(n)[..n - 1] == ShiftLefts(n - 1);
    }
  }

  /** The state after a selection of `n` bytes to the left and a copy. */
  lemma CopyLeftwards(s: State, n: nat)
    requires Unselected(s) && 0 < n <= s.gap.start
    ensures AllPossible(Pressed(ShiftLefts(n)) + [COPY_PRESS])
    ensures var t, c, len := s.gap.Content(), s.gap.start - n, s.gap.end - s.gap.start;
            Run(s, Pressed(ShiftLefts(n)) + [COPY_PRESS]).clip == t[c..s.gap.start]
            <==> forall i: nat :: c + len <= i < s.gap.start ==> Repeats(s.gap, i)
  {
    ShiftLeftsMove(n);
    SelectingRun(s, ShiftLefts(n));
    var r := Run(s, Pressed(ShiftLefts(n)));
    RunOneMore(s, Pressed(ShiftLefts(n)), COPY_PRESS);
    LeftwardCopyExact(s.gap, n);
    CopyTakes(r);
  }

  lemma LastThreeRepeat(g: Gap, clip: Text)
    requires g.Valid() && g.Content() == clip && |clip| == 1023 && g.end - g.start == 1
    ensures (forall i: nat :: 1020 + (g.end - g.start) <= i < 1023 ==> Repeats(g, i))
            <==> clip[1020] == clip[1021] == clip[1022]
  {
    assert Repeats(g, 1021) <==> clip[1021] == clip[1020];
    assert Repeats(g, 1022) <==> clip[1022] == clip[1021];
  }

  /** Three bytes before a gap of one. */
  lemma CopyLastThree(s: State, clip: Text)
    requires Unselected(s) && s.gap.Content() == clip && |clip| == 1023
    requires s.gap.start == 1023 && s.gap.end == 1024
    ensures AllPossible(Pressed(ShiftLefts(3)) + [COPY_PRESS])
    ensures Run(s, Pressed(ShiftLefts(3)) + [COPY_PRESS]).clip == clip[1020..1023]
            <==> clip[1020] == clip[1021] == clip[1022]
  {
    CopyLeftwards(s, 3);
    LastThreeRepeat(s.gap, clip);
  }

  /**
   * It does fail: paste 1023 bytes into a new file, so that the gap is one byte
   * long, select the last three and copy. The clipboard is the selected text only
   * if those three bytes are all the same.
   */
  lemma BackwardCopyCanFail(path: Text, clip: Text)
    requires |clip| == 1023 && RETURN !in clip
    ensures AllPossible([PASTE_PRESS] + (Pressed(ShiftLefts(3)) + [COPY_PRESS]))
    ensures var r := Run(OpenedNew(path, clip), [PASTE_PRESS] + (Pressed(ShiftLefts(3)) + [COPY_PRESS]));
            r.clip == clip[1020..1023] <==> clip[1020] == clip[1021] == clip[1022]
  {
    var s := OpenedNew(path, clip);
    PastedIntoNew(path, clip);
    PasteFills(s.gap, clip);
    var s1 := Run(s, [PASTE_PRESS]);
    CopyLastThree(s1, clip);
    RunTwice(s, [PASTE_PRESS], Pressed(ShiftLefts(3)) + [COPY_PRESS]);
  }

  // ---- typing and backspaces between selecting and copying ----

  /** Keys that type a byte or erase one; they leave the selection where it is. */
  predicate EditKeys(ks: seq<Event>) {
    forall i :: 0 <= i < |ks| ==> !ks[i].shift && (ks[i].key == CharKey || ks[i].key == BackspaceKey)
  }

  function CommandsFor(ks: seq<Event>): (cmds: seq<Command>)
    requires EditKeys(ks)
    ensures |cmds| == |ks| && AllEdits(cmds)
  {
    if ks == [] then []
    else
      var n := |ks| - 1;
      CommandsFor(ks[..n]) + [if ks[n].key == CharKey then Type(ks[n].value) else Backspace]
  }

  /** The state after the edits: the selection is still the one of `s`. */
  ghost predicate EditedTo(s: State, r: State, cmds: seq<Command>)
    requires Inv(s)
  {
    Inv(r) && r.gap == GapRun(s.gap, cmds) && r.span == s.span && r.mode == s.mode && r.dialog == s.dialog
  }

  lemma EditKey(r: State, e: Event, cmd: Command)
    requires Inv(r) && r.mode != Client && !r.dialog.active && !e.shift
    requires (e.key == CharKey && cmd == Type(e.value)) || (e.key == BackspaceKey && cmd == Backspace)
    ensures var q := React(r, Press(e));
            q.gap == GapStep(r.gap, cmd) && q.span == r.span && q.mode == r.mode && q.dialog == r.dialog
  {
  }

  lemma EditsOne(s: State, r: State, q: State, cmds: seq<Command>, cmd: Command)
    requires Inv(s) && EditedTo(s, r, cmds) && Inv(q)
    requires q.gap == GapStep(r.gap, cmd) && q.span == r.span && q.mode == r.mode && q.dialog == r.dialog
    ensures EditedTo(s, q, cmds + [cmd])
  {
    assert (cmds + [cmd])[..|cmds|] == cmds;
  }

  lemma {:induction false} EditingRun(s: State, ks: seq<Event>)
    requires Inv(s) && s.mode != Client && !s.dialog.active && EditKeys(ks)
    ensures AllPossible(Pressed(ks)) && EditedTo(s, Run(s, Pressed(ks)), CommandsFor(ks))
  {
    if ks != [] {
      var before, e := ks[..|ks| - 1], ks[|ks| - 1];
      var cmd := if e.key == CharKey then Type(e.value) else Backspace;
      assert before + [e] == ks;
      EditingRun(s, before);
      var r := Run(s, Pressed(before));
      PressedAppends(before, e);
      RunOneMore(s, Pressed(before), Press(e));
      EditKey(r, e, cmd);
      EditsOne(s, r, React(r, Press(e)), CommandsFor(before), cmd);
    }
  }

  /** A copy with a selection takes its raw bytes and leaves text and selection. */
  lemma CopyAfterAll(s: State, ins: seq<Input>, r: State)
    requires Inv(s) && AllPossible(ins) && r == Run(s, ins)
    requires r.mode != Client && !r.dialog.active && r.span.active
    ensures AllPossible(ins + [COPY_PRESS])
    ensures var q := Run(s, ins + [COPY_PRESS]);
            && q.gap == r.gap && q.span == r.span
            && q.clip == Copied(r.gap, Min(r.span.start, r.span.end), Max(r.span.start, r.span.end))
  {
    RunOneMore(s, ins, COPY_PRESS);
    CopyTakes(r);
    CopyLeaves(r);
  }

  lemma CopyLeaves(s: State)
    requires Inv(s) && s.mode != Client && !s.dialog.active
    ensures React(s, COPY_PRESS).gap == s.gap && React(s, COPY_PRESS).span == s.span
  {
  }

  /** The edits, then a copy, from a state with a selection. */
  lemma CopyAfterEdits(s: State, ks: seq<Event>, lo: nat, hi: nat)
    requires Inv(s) && s.mode != Client && !s.dialog.active && s.span.active && EditKeys(ks)
    requires lo == Min(s.span.start, s.span.end) && hi == Max(s.span.start, s.span.end)
    requires hi <= s.gap.end + GAP_SIZE
    ensures AllPossible(Pressed(ks) + [COPY_PRESS])
    ensures var q := Run(s, Pressed(ks) + [COPY_PRESS]);
            q.clip == Highlighted(q.gap.Content(), q.span)
            <==> forall i: nat :: lo <= i < hi ==>
                   StillRight(s.gap.data[i], s.gap.Content(), s.gap.start, CommandsFor(ks), i)
  {
    EditingRun(s, ks);
    CopyAfterAll(s, Pressed(ks), Run(s, Pressed(ks)));
    EditedCopyExact(s.gap, CommandsFor(ks), s.span, lo, hi);
  }

  /** A selection made forwards and then edited under, copied. */
  lemma ForwardEditsRead(s: State, es: seq<Event>, r: State)
    requires Unselected(s) && Selecting(es) && es != [] && Selected(s, r, es)
    requires s.gap.start <= r.gap.start
    ensures r.gap.Content() == s.gap.Content() && r.gap.start <= r.gap.end
    ensures forall i: nat :: s.gap.start <= i < r.gap.start ==> r.gap.data[i] == s.gap.Content()[i]
  {
    TravelsKeepText(s.gap, MovesOf(es));
  }

  /**
   * Typing and backspaces may come between the selection and the copy, and leave
   * the selection's ends where they are. After a forward selection the copy is then
   * the highlighted text exactly when every selected offset is still right: left of
   * the cursor, or by chance the byte that was there, or was typed there last, is
   * the one that has moved there.
   */
  lemma CopyAfterEditing(s: State, es: seq<Event>, ks: seq<Event>, c: nat)
    requires Unselected(s) && Selecting(es) && es != [] && EditKeys(ks)
    requires c == Travels(s.gap, MovesOf(es)).start && s.gap.start <= c
    ensures c <= |s.gap.Content()| && AllPossible(Pressed(es) + (Pressed(ks) + [COPY_PRESS]))
    ensures var q := Run(s, Pressed(es) + (Pressed(ks) + [COPY_PRESS])); var t := s.gap.Content();
            q.clip == Highlighted(q.gap.Content(), q.span)
            <==> forall i: nat :: s.gap.start <= i < c ==> StillRight(t[i], t, c, CommandsFor(ks), i)
  {
    SelectingRun(s, es);
    var r := Run(s, Pressed(es));
    ForwardEditsRead(s, es, r);
    CopyAfterEdits(r, ks, s.gap.start, c);
    RunTwice(s, Pressed(es), Pressed(ks) + [COPY_PRESS]);
  }

  function Erasing(j: nat): (ks: seq<Event>)
    ensures |ks| == j && EditKeys(ks)
  {
    seq(j, _ => Event(BackspaceKey, NUL, false, false))
  }

  lemma {:induction false} ErasingErases(j: nat)
    ensures CommandsFor(Erasing(j)) == Backspaces(j)
  {
    if j > 0 {
      ErasingErases(j - 1);
      assert Erasing(j)[..j - 1] == Erasing(j - 1);
    }
  }

  /**
   * After `j` backspaces the copy is the text that was selected, erased or not; so
   * it is the highlighted text exactly when the erased part repeats `j` bytes further.
   */
  lemma CopyAfterBackspaces(s: State, es: seq<Event>, j: nat, c: nat)
    requires Unselected(s) && Selecting(es) && es != []
    requires c == Travels(s.gap, MovesOf(es)).start && s.gap.start <= c && j <= c
    ensures c <= |s.gap.Content()| && AllPossible(Pressed(es) + (Pressed(Erasing(j)) + [COPY_PRESS]))
    ensures var q := Run(s, Pressed(es) + (Pressed(Erasing(j)) + [COPY_PRESS])); var t := s.gap.Content();
            && q.clip == t[s.gap.start..c]
            && (q.clip == Highlighted(q.gap.Content(), q.span)
                <==> forall i: nat :: Max(s.gap.start, c - j) <= i < c ==> RecursAfter(t, i, j))
  {
    CopyAfterEditing(s, es, Erasing(j), c);
    ErasingErases(j);
    ErasedAllRight(s.gap.Content(), s.gap.start, c, j);
    ErasedIsCopied(s, es, j, c);
  }

  lemma ErasedIsCopied(s: State, es: seq<Event>, j: nat, c: nat)
    requires Unselected(s) && Selecting(es) && es != []
    requires c == Travels(s.gap, MovesOf(es)).start && s.gap.start <= c
    ensures c <= |s.gap.Content()| && AllPossible(Pressed(es) + (Pressed(Erasing(j)) + [COPY_PRESS]))
    ensures Run(s, Pressed(es) + (Pressed(Erasing(j)) + [COPY_PRESS])).clip == s.gap.Content()[s.gap.start..c]
  {
    SelectingRun(s, es);
    var r := Run(s, Pressed(es));
    EditingRun(r, Erasing(j));
    ErasingErases(j);
    CopyAfterAll(r, Pressed(Erasing(j)), Run(r, Pressed(Erasing(j))));
    ErasedCopy(r.gap, j, s.gap.start, c);
    RunTwice(s, Pressed(es), Pressed(Erasing(j)) + [COPY_PRESS]);
    TravelsKeepText(s.gap, MovesOf(es));
    ForwardCopy(s.gap, MovesOf(es));
  }

  const SHIFT_RIGHT := Event(RightKey, NUL, true, false)

  lemma EraseTheFirst(s: State, a: byte, b: byte)
    requires Unselected(s) && s.gap.start == 0 && s.gap.Content() == [a, b]
    ensures AllPossible(Pressed([SHIFT_RIGHT]) + (Pressed(Erasing(1)) + [COPY_PRESS]))
    ensures var q := Run(s, Pressed([SHIFT_RIGHT]) + (Pressed(Erasing(1)) + [COPY_PRESS]));
            q.clip == [a] && (q.clip == Highlighted(q.gap.Content(), q.span) <==> a == b)
  {
    SelectsFirst(s);
    CopyAfterBackspaces(s, [SHIFT_RIGHT], 1, 1);
    assert [a, b][0..1] == [a];
    assert RecursAfter([a, b], 0, 1) <==> a == b;
  }

  /**
   * The shortest failing run: in a file of two bytes select the first, erase it and
   * copy. The clipboard has the erased byte, and the screen highlights the other.
   */
  lemma ErasedByteCopied(path: Text, clip: Text, a: byte, b: byte, s: State)
    requires path != [] && s == Opened(Offline, path, Disk(map[path := [a, b]], {}, {}), clip)
    ensures AllPossible(Pressed([SHIFT_RIGHT]) + (Pressed(Erasing(1)) + [COPY_PRESS]))
    ensures var q := Run(s, Pressed([SHIFT_RIGHT]) + (Pressed(Erasing(1)) + [COPY_PRESS]));
            q.clip == [a] && (q.clip == Highlighted(q.gap.Content(), q.span) <==> a == b)
  {
    EraseTheFirst(s, a, b);
  }

  lemma SelectsFirst(s: State)
    requires Inv(s) && s.gap.start == 0 && s.gap.Content() != []
    ensures Travels(s.gap, MovesOf([SHIFT_RIGHT])).start == 1
  {
    assert [SHIFT_RIGHT][..0] == [];
    assert MovesOf([SHIFT_RIGHT]) == [] + [Right] == [Right] && [Right][..0] == [];
    assert Travels(s.gap, []) == s.gap;
    TravelRefines(s.gap, Right);
  }
}
