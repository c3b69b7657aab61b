/**
 * What every input does, said key by key and field by field of the state: the
 * text and the cursor, the selection, the clipboard, the dialog, and whether the
 * editor goes on.
 */
module Keys {
  import opened Bytes
  import opened Lines
  import opened Moves
  import opened Layout
  import opened Visual
  import opened GapModel
  import opened Highlights
  import opened Disks
  import opened Selection
  import opened EditorModel
  import opened Copying
  import Views

  ghost predicate InTheText(s: State, e: Event) {
    Inv(s) && Producible(e) && !s.dialog.active
  }

  // ---- text and cursor ----

  /** Each arrow with and without control, in every mode. */
  lemma ArrowsMove(s: State, e: Event)
    requires InTheText(s, e)
    ensures var t, c := s.gap.Content(), s.gap.start; var r := View(Process(s, e).gap);
            && (e.key == UpKey ==> r == Doc(t, UpDest(t, c)))
            && (e.key == DownKey ==> r == Doc(t, DownDest(t, c)))
            && (e.key == LeftKey && !e.ctrl ==> r == Doc(t, if c == 0 then 0 else c - 1))
            && (e.key == RightKey && !e.ctrl ==> r == Doc(t, if c == |t| then c else c + 1))
            && (e.key == LeftKey && e.ctrl ==> r == Doc(t, Dest(WordLeft, t, c)))
            && (e.key == RightKey && e.ctrl ==> r == Doc(t, Dest(WordRight, t, c)))
  {
    ProcessGap(s, e);
    if IsArrow(e.key) {
      TravelRefines(s.gap, MoveOf(e.key, e.ctrl));
    }
  }

  /** The up key, from any row of the screen but the first of the text, without tabs in the way. */
  lemma UpKeyIsRowAbove(s: State, e: Event, t: Text, p: nat, b: nat, c: nat, n: nat)
    requires InTheText(s, e) && e.key == UpKey && View(s.gap) == Doc(t, c)
    requires OnLinesUp(t, p, b, c, n) && TabFree(t, p, c) && At(t, c).row > 0
    ensures LandsOn(t, Process(s, e).gap.start, At(t, c).row - 1, At(t, c).col)
  {
    ArrowsMove(s, e);
    UpIsRowAbove(t, p, b, c, n);
  }

  lemma DownKeyGoes(s: State, e: Event, t: Text, c: nat)
    requires InTheText(s, e) && e.key == DownKey && View(s.gap) == Doc(t, c)
    ensures Process(s, e).gap.start == DownDest(t, c)
  {
    ArrowsMove(s, e);
  }

  /** The down key goes to the row below exactly when `DownFollowsRows` holds. */
  lemma DownKeyIsRowBelow(s: State, e: Event, t: Text, b: nat, c: nat, n: nat, m: nat)
    requires InTheText(s, e) && e.key == DownKey && View(s.gap) == Doc(t, c)
    requires OnLines(t, b, c, n, m) && TabFree(t, b, m)
    ensures LandsOn(t, Process(s, e).gap.start, At(t, c).row + 1, At(t, c).col)
            <==> DownFollowsRows(SpotOf(t, b, c, n, m))
  {
    DownKeyGoes(s, e, t, c);
    DownIsRowBelow(t, b, c, n, m);
  }

  /** Outside client mode a byte is typed in front of the cursor, a return as a newline. */
  lemma TypingKeys(s: State, e: Event)
    requires InTheText(s, e) && s.mode != Client && (e.key == CharKey || e.key == EnterKey)
    ensures var t, c := s.gap.Content(), s.gap.start;
            View(Process(s, e).gap) == Doc(t[..c] + [if e.value == 13 then 10 else e.value] + t[c..], c + 1)
  {
    ProcessGap(s, e);
    InsertRefines(s.gap, e.value);
  }

  /** Backspace takes the byte in front of the cursor. */
  lemma ErasingKey(s: State, e: Event)
    requires InTheText(s, e) && s.mode != Client && e.key == BackspaceKey
    ensures var t, c := s.gap.Content(), s.gap.start;
            View(Process(s, e).gap) == if c == 0 then Doc(t, 0) else Doc(t[..c - 1] + t[c..], c - 1)
  {
    ProcessGap(s, e);
    EraseRefines(s.gap);
  }

  /** Paste puts the clipboard in, without its returns. */
  lemma PastingKey(s: State, e: Event)
    requires InTheText(s, e) && s.mode != Client && e.key == PasteKey
    ensures var t, c, piece := s.gap.Content(), s.gap.start, WithoutReturns(s.clip);
            View(Process(s, e).gap) == Doc(t[..c] + piece + t[c..], c + |piece|)
  {
    ProcessGap(s, e);
    PasteRefines(s.gap, s.clip);
  }

  /** Every other key, and in client mode every key but an arrow, leaves text and cursor. */
  lemma OthersLeave(s: State, e: Event)
    requires InTheText(s, e)
    requires e.key != UpKey && e.key != DownKey && e.key != LeftKey && e.key != RightKey
    requires s.mode == Client
             || (e.key != CharKey && e.key != EnterKey && e.key != BackspaceKey && e.key != PasteKey)
    ensures Process(s, e).gap == s.gap
  {
    ProcessGap(s, e);
  }

  // ---- the selection ----

  /**
   * A shift-arrow stretches the selection from its anchor, or begins one at the
   * cursor; typing, backspace and copy leave it; any other key ends it, with paste
   * as an exception in client mode, which does not paste.
   */
  lemma SelectionAfter(s: State, e: Event)
    requires InTheText(s, e) && e.key != NoKey
    ensures var r := Process(s, e);
            r.span == if e.shift then Span(true, if s.span.active then s.span.start else s.gap.start, r.gap.start)
                      else if e.key == CharKey || e.key == BackspaceKey || e.key == CopyKey
                              || (e.key == PasteKey && s.mode == Client) then s.span
                      else Span(false, 0, 0)
  {
  }

  // ---- the clipboard ----

  predicate Copies(s: State, i: Input) {
    i.Press? && i.e.key == CopyKey && !s.dialog.active && s.mode != Client && s.span.active
  }

  /** Only a copy with a selection changes the clipboard. */
  lemma ClipboardKept(s: State, i: Input)
    requires Inv(s) && Possible(i)
    ensures if Copies(s, i)
            then React(s, i).clip == s.gap.data[Min(s.span.start, s.span.end)..Max(s.span.start, s.span.end)]
            else React(s, i).clip == s.clip
  {
    if i.Press? && i.e.key != NoKey && !s.dialog.active {
      TextKeyClip(s, i.e);
    }
  }

  lemma TextKeyClip(s: State, e: Event)
    requires InTheText(s, e)
    ensures TextKey(s, e).clip
            == if e.key == CopyKey && s.mode != Client && s.span.active
               then s.gap.data[Min(s.span.start, s.span.end)..Max(s.span.start, s.span.end)] else s.clip
  {
  }

  predicate NoCopy(ins: seq<Input>) {
    forall k :: 0 <= k < |ins| ==> ins[k].Press? ==> ins[k].e.key != CopyKey
  }

  lemma {:induction false} RunKeepsClipboard(s: State, ins: seq<Input>)
    requires Inv(s) && AllPossible(ins) && NoCopy(ins)
    ensures Run(s, ins).clip == s.clip
  {
    if ins != [] {
      var n := |ins| - 1;
      RunKeepsClipboard(s, ins[..n]);
      ClipboardKept(Run(s, ins[..n]), ins[n]);
    }
  }

  /** A piece put in at the cursor of a text, which comes to be behind it. */
  function PutIn(d: Doc, piece: Text): Doc
    requires d.Valid()
  {
    Doc(d.text[..d.cursor] + piece + d.text[d.cursor..], d.cursor + |piece|)
  }

  lemma PastePressed(r: State, piece: Text)
    requires Inv(r) && r.mode != Client && !r.dialog.active && piece == WithoutReturns(r.clip)
    ensures View(React(r, PASTE_PRESS).gap) == PutIn(View(r.gap), piece)
  {
    PastingKey(r, PASTE_PRESS.e);
  }

  /** What a paste inserts is the clipboard, whatever has happened since. */
  lemma PasteAfter(s: State, ins: seq<Input>, r: State, q: State, piece: Text)
    requires Inv(s) && AllPossible(ins) && NoCopy(ins) && r == Run(s, ins)
    requires r.mode != Client && !r.dialog.active && piece == WithoutReturns(s.clip)
    requires AllPossible(ins + [PASTE_PRESS]) && q == Run(s, ins + [PASTE_PRESS])
    ensures View(q.gap) == PutIn(View(r.gap), piece)
  {
    RunKeepsClipboard(s, ins);
    RunOneMore(s, ins, PASTE_PRESS);
    PastePressed(r, piece);
  }

  /**
   * Copy and paste: select forwards and copy, do anything but copy, then paste in
   * the text: what was selected, without its returns, is put in at the cursor.
   */
  lemma CopyAndPaste(s: State, es: seq<Event>, s1: State, ins: seq<Input>, c: nat, r: State, q: State)
    requires Unselected(s) && Selecting(es) && es != []
    requires c == Travels(s.gap, MovesOf(es)).start && s.gap.start <= c <= |s.gap.Content()|
    requires AllPossible(Pressed(es) + [COPY_PRESS]) && s1 == Run(s, Pressed(es) + [COPY_PRESS])
    requires AllPossible(ins) && NoCopy(ins) && r == Run(s1, ins) && !r.dialog.active
    requires AllPossible(ins + [PASTE_PRESS]) && q == Run(s1, ins + [PASTE_PRESS])
    ensures View(q.gap) == PutIn(View(r.gap), WithoutReturns(s.gap.Content()[s.gap.start..c]))
  {
    CopyAfterSelecting(s, es);
    SameMode(s, Pressed(es) + [COPY_PRESS]);
    SameMode(s1, ins);
    PasteAfter(s1, ins, r, q, WithoutReturns(s1.clip));
  }

  lemma PasteFillsGap(s: State, r: State)
    requires Inv(s) && s.mode != Client && !s.dialog.active && r == React(s, PASTE_PRESS)
    requires RETURN !in s.clip && |s.clip| <= s.gap.end - s.gap.start
    ensures r.gap.start == s.gap.start + |s.clip| && r.gap.end == s.gap.end && |r.gap.data| == |s.gap.data|
  {
    ProcessGap(s, PASTE_PRESS.e);
    PasteFills(s.gap, s.clip);
  }

  /** A paste, at the end of the text, of as much as the gap has room for loses sight of the cursor. */
  lemma PasteMisdraws(s: State, r: State)
    requires Inv(s) && s.mode != Client && !s.dialog.active && r == React(s, PASTE_PRESS)
    requires s.gap.start == |s.gap.Content()|
    requires s.clip != [] && RETURN !in s.clip && |s.clip| == s.gap.end - s.gap.start
    ensures Views.Misdrawn(r.gap)
  {
    PasteFillsGap(s, r);
    Views.UnmetCursor(r.gap);
  }

  // ---- the dialog ----

  /** A key in the dialog edits its path, cancels it, confirms it, or does nothing. */
  lemma DialogEdits(s: State, e: Event)
    requires Inv(s) && Producible(e) && s.dialog.active
    ensures var r, p := Process(s, e), s.dialog.path;
            && (e.key == CharKey ==> r == s.(dialog := Dialog(true, p + [e.value], s.dialog.confirmed)))
            && (e.key == BackspaceKey ==>
                  r == s.(dialog := Dialog(true, if p == [] then [] else p[..|p| - 1], s.dialog.confirmed)))
            && (e.key == EscapeKey ==> r == s.(dialog := Dialog(false, p, false)))
            && (e.key == EnterKey ==>
                  r == s.(dialog := Dialog(false, p, true), path := p, gap := r.gap, disk := r.disk))
            && (e.key != CharKey && e.key != BackspaceKey && e.key != EscapeKey && e.key != EnterKey ==> r == s)
  {
  }

  /** Keys in the dialog that do not close it. */
  predicate StaysOpen(ins: seq<Input>) {
    forall k :: 0 <= k < |ins| ==> ins[k].Press? && ins[k].e.key != EnterKey && ins[k].e.key != EscapeKey
  }

  lemma {:induction false} DialogStaysOpen(s: State, ins: seq<Input>)
    requires Inv(s) && s.dialog.active && AllPossible(ins) && StaysOpen(ins)
    ensures var r := Run(s, ins); r.dialog.active && r == s.(dialog := r.dialog)
  {
    if ins != [] {
      var n := |ins| - 1;
      DialogStaysOpen(s, ins[..n]);
      DialogEdits(Run(s, ins[..n]), ins[n].e);
    }
  }

  const ESCAPE_PRESS := Press(Event(EscapeKey, NUL, false, false))

  /** Opening the dialog, typing and erasing in it, and cancelling it changes nothing but the selection. */
  lemma CancelLeavesAll(s: State, ins: seq<Input>)
    requires InTextOffline(s) && AllPossible(ins) && StaysOpen(ins)
    ensures AllPossible(OPEN_DIALOG + (ins + [ESCAPE_PRESS]))
    ensures var r := Run(s, OPEN_DIALOG + (ins + [ESCAPE_PRESS]));
            r == s.(span := Span(false, 0, 0), dialog := r.dialog) && !r.dialog.active && !r.dialog.confirmed
  {
    var s1 := s.(span := NONE, dialog := Dialog(true, [], false));
    DialogOpens(s);
    DialogStaysOpen(s1, ins);
    RunOneMore(s1, ins, ESCAPE_PRESS);
    DialogEdits(Run(s1, ins), ESCAPE_PRESS.e);
    RunTwice(s, OPEN_DIALOG, ins + [ESCAPE_PRESS]);
  }

  // ---- the rest of the state ----

  /** An editor is opened at the start of its file, with nothing selected, posted or asked. */
  lemma OpensAtStart(mode: Mode, path: Text, disk: Disk, clip: Text)
    ensures var s := Opened(mode, path, disk, clip);
            && View(s.gap) == Doc(disk.Holds(path), 0) && s.path == path && s.mode == mode && s.clip == clip
            && s.span == Span(false, 0, 0) && !s.dialog.active && s.posts == [] && s.running
  {
  }

  predicate Quits(s: State, i: Input) {
    i.Press? && i.e.key == QuitKey && !s.dialog.active
  }

  /** The editor runs until it is quit from the text. */
  lemma RunsUntilQuit(s: State, i: Input)
    requires Inv(s) && Possible(i)
    ensures React(s, i).running <==> s.running && !Quits(s, i)
  {
    if i.Press? && i.e.key != NoKey && !s.dialog.active {
      TextKeyRunning(s, i.e);
    }
  }

  lemma TextKeyRunning(s: State, e: Event)
    requires InTheText(s, e)
    ensures TextKey(s, e).running <==> s.running && e.key != QuitKey
  {
  }

  /** Quitting stores the text under the path, if that can be written; no other key in the text writes. */
  lemma OnlyQuitWrites(s: State, e: Event)
    requires InTheText(s, e)
    ensures var r := Process(s, e);
            && r.path == s.path && r.mode == s.mode
            && (e.key != QuitKey || !s.disk.Writable(s.path) ==> r.disk == s.disk)
            && (e.key == QuitKey && s.disk.Writable(s.path) ==>
                  r.disk == s.disk.(files := s.disk.files[s.path := s.gap.Content()]))
  {
    if e.key != NoKey {
      InTextFrame(s, e);
    }
  }

  /** No key is no input. */
  lemma NoKeyNothing(s: State, e: Event)
    requires Inv(s) && Producible(e) && e.key == NoKey
    ensures Process(s, e) == s
  {
  }

  // ---- texts from the host ----

  /** A client takes a text over and keeps its cursor where it fits; the others ignore it. */
  lemma PollTakesOver(s: State, text: Text)
    requires Inv(s)
    ensures var r := Poll(s, text); var c := s.gap.start;
            if s.mode == Client
            then r == s.(gap := r.gap) && View(r.gap) == Doc(text, if c <= |text| then c else |text|)
            else r == s
  {
  }

  function Snapshots(ts: seq<Text>): (ins: seq<Input>)
    ensures |ins| == |ts| && AllPossible(ins)
  {
    seq(|ts|, k requires 0 <= k < |ts| => Snapshot(ts[k]))
  }

  /** The shortest of some texts, or `c` if it is less. */
  function Shortest(c: nat, ts: seq<Text>): nat {
    if ts == [] then c
    else
      var before := Shortest(c, ts[..|ts| - 1]);
      if before <= |ts[|ts| - 1]| then before else |ts[|ts| - 1]|
  }

  lemma {:induction false} ShortestIsLeast(c: nat, ts: seq<Text>)
    ensures Shortest(c, ts) <= c && forall k :: 0 <= k < |ts| ==> Shortest(c, ts) <= |ts[k]|
    ensures Shortest(c, ts) == c || exists k :: 0 <= k < |ts| && Shortest(c, ts) == |ts[k]|
  {
    if ts != [] {
      ShortestIsLeast(c, ts[..|ts| - 1]);
    }
  }

  /** One more text, for a client with its cursor at `c`. */
  lemma OneMoreText(s: State, ins: seq<Input>, r: State, text: Text)
    requires Inv(s) && AllPossible(ins) && r == Run(s, ins) && r.mode == Client
    ensures AllPossible(ins + [Snapshot(text)])
    ensures var q := Run(s, ins + [Snapshot(text)]);
            q.mode == Client && View(q.gap) == Doc(text, if r.gap.start <= |text| then r.gap.start else |text|)
  {
    RunOneMore(s, ins, Snapshot(text));
    PollTakesOver(r, text);
  }

  /**
   * A client that presses no key shows the last text, and its cursor goes back only
   * as far as the shortest text forced it to.
   */
  lemma {:induction false} CursorOverTexts(s: State, ts: seq<Text>)
    requires Inv(s) && s.mode == Client
    ensures var r := Run(s, Snapshots(ts));
            && r.gap.start == Shortest(s.gap.start, ts) && r.mode == Client
            && (ts != [] ==> r.gap.Content() == ts[|ts| - 1])
  {
    if ts != [] {
      var before, text := ts[..|ts| - 1], ts[|ts| - 1];
      CursorOverTexts(s, before);
      assert Snapshots(ts) == Snapshots(before) + [Snapshot(text)];
      OneMoreText(s, Snapshots(before), Run(s, Snapshots(before)), text);
    }
  }

  /** So it stays over texts that are at least as long. */
  lemma CursorStays(s: State, ts: seq<Text>)
    requires Inv(s) && s.mode == Client && forall k :: 0 <= k < |ts| ==> s.gap.start <= |ts[k]|
    ensures Run(s, Snapshots(ts)).gap.start == s.gap.start
  {
    CursorOverTexts(s, ts);
    ShortestIsLeast(s.gap.start, ts);
  }
}
