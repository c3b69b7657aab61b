/**
 * The editor between two key events, and what one event does to it, in each of
 * the three modes. The class in Editors.dfy is proved against `Process`.
 */
module EditorModel {
  import opened Bytes
  import opened Moves
  import opened GapModel
  import opened Highlights
  import opened Disks

  datatype Key =
    | NoKey | CharKey | UpKey | DownKey | LeftKey | RightKey | BackspaceKey | EnterKey | EscapeKey
    | CopyKey | PasteKey | QuitKey | ChangeFileKey | SaveKey | AqLockKey

  datatype Event = Event(key: Key, value: byte, shift: bool, ctrl: bool)

  predicate IsArrow(k: Key) {
    k == UpKey || k == DownKey || k == LeftKey || k == RightKey
  }

  /** The events that `read_input` makes: shift comes with an arrow or with no key. */
  predicate Producible(e: Event) {
    e.shift ==> IsArrow(e.key) || e.key == NoKey
  }

  datatype Mode = Offline | Host | Client

  /** The dialog that asks for another file. */
  datatype Dialog = Dialog(active: bool, path: Text, confirmed: bool)

  datatype State = State(
    mode: Mode,
    path: Text,
    gap: Gap,
    span: Span,
    dialog: Dialog,
    disk: Disk,
    clip: Text,
    running: bool,
    posts: seq<Text>)

  /**
   * What every reachable state has: an inactive selection is (0, 0); outside
   * client mode both ends of the selection are inside the storage; and while
   * the dialog is open nothing is selected.
   */
  ghost predicate Inv(s: State) {
    && s.gap.Valid()
    && (!s.span.active ==> s.span == NONE)
    && (s.mode != Client ==> s.span.start <= |s.gap.data| && s.span.end <= |s.gap.data|)
    && (s.dialog.active ==> s.mode == Offline && s.span == NONE)
  }

  /** The editor opened on a file. */
  function Opened(mode: Mode, path: Text, disk: Disk, clip: Text): (s: State)
    ensures Inv(s)
  {
    var r := Load(disk, path);
    State(mode, path, r.1, NONE, Dialog(false, [], false), r.0, clip, true, [])
  }

  // ---- the dialog ----

  function Activated(d: Dialog): Dialog {
    Dialog(true, [], false)
  }

  /** A key in the dialog, and whether it closes it. */
  function DialogKey(d: Dialog, e: Event): (r: (Dialog, bool)) {
    match e.key
    case CharKey => (d.(path := d.path + [e.value]), false)
    case BackspaceKey => (if d.path == [] then d else d.(path := d.path[..|d.path| - 1]), false)
    case EnterKey => (d.(confirmed := true), true)
    case EscapeKey => (d.(confirmed := false), true)
    case _ => (d, false)
  }

  /** The old text saved under the old path, the new path loaded. */
  function SwitchFile(s: State, path: Text): (r: State)
    requires s.gap.Valid()
    ensures r.gap.Valid()
  {
    var load := Load(Save(s.disk, s.path, s.gap.Content()), path);
    s.(disk := load.0, path := path, gap := load.1)
  }

  function InDialog(s: State, e: Event): (r: State)
    requires s.gap.Valid() && s.dialog.active
    ensures r.gap.Valid() && (Inv(s) ==> Inv(r))
  {
    var d := DialogKey(s.dialog, e);
    var s1 := s.(dialog := d.0);
    if !d.1 then s1
    else
      var s2 := if d.0.confirmed then SwitchFile(s1, d.0.path) else s1;
      s2.(dialog := s2.dialog.(active := false))
  }

  // ---- the input handlers ----

  function MoveOf(k: Key, ctrl: bool): Move
    requires IsArrow(k)
  {
    match k
    case UpKey => Up
    case DownKey => Down
    case LeftKey => if ctrl then WordLeft else Left
    case RightKey => if ctrl then WordRight else Right
  }

  function CopySelected(s: State): State
    requires Inv(s) && s.mode != Client
  {
    if s.span.active
    then s.(clip := s.gap.data[Min(s.span.start, s.span.end)..Max(s.span.start, s.span.end)])
    else s
  }

  /** One key in the text. */
  function HandleKey(s: State, e: Event): (r: State)
    requires Inv(s) && !s.dialog.active
    ensures r.gap.Valid()
  {
    var edits := s.mode != Client;
    match e.key
    case UpKey => s.(gap := Travel(s.gap, MoveOf(e.key, e.ctrl)))
    case DownKey => s.(gap := Travel(s.gap, MoveOf(e.key, e.ctrl)))
    case LeftKey => s.(gap := Travel(s.gap, MoveOf(e.key, e.ctrl)))
    case RightKey => s.(gap := Travel(s.gap, MoveOf(e.key, e.ctrl)))
    case QuitKey => s.(disk := Save(s.disk, s.path, s.gap.Content()), running := false)
    case BackspaceKey => if edits then s.(gap := Erase(s.gap)) else s
    case CharKey => if edits then s.(gap := Insert(s.gap, e.value)) else s
    case EnterKey => if edits then s.(gap := Insert(s.gap, e.value)) else s
    case CopyKey => if edits then CopySelected(s) else s
    case PasteKey => if edits then s.(gap := Paste(s.gap, s.clip), span := NONE) else s
    case ChangeFileKey => if s.mode == Offline then s.(dialog := Activated(s.dialog)) else s
    case _ => s
  }

  /** The keys that leave a selection alone. */
  predicate KeepsSelection(k: Key) {
    k == CharKey || k == BackspaceKey || k == CopyKey || k == PasteKey
  }

  /** Before the key: a shift key begins a selection, another one ends it. */
  function SelectBefore(s: State, e: Event): (r: State)
    requires Inv(s) && !s.dialog.active
    ensures Inv(r)
  {
    var s1 := if e.shift && !s.span.active then s.(span := Started(s.gap.start)) else s;
    if !e.shift && !KeepsSelection(e.key) then s1.(span := NONE) else s1
  }

  /** After the key: a shift key moves the end of the selection, a host posts its text. */
  function AfterKey(s: State, e: Event): State
    requires s.gap.Valid()
  {
    var s1 := if e.shift then s.(span := Ended(s.span, s.gap.start)) else s;
    if s1.mode == Host then s1.(posts := s1.posts + [s1.gap.Content()]) else s1
  }

  /** A key in the text, with the bookkeeping of the selection around it. */
  function TextKey(s: State, e: Event): (r: State)
    requires Inv(s) && !s.dialog.active
    ensures r.gap.Valid()
  {
    AfterKey(HandleKey(SelectBefore(s, e), e), e)
  }

  function InText(s: State, e: Event): (r: State)
    requires Inv(s) && !s.dialog.active && Producible(e)
    ensures Inv(r)
  {
    InsideAfter(SelectBefore(s, e), e);
    TextKey(s, e)
  }

  lemma {:induction false} PasteGrows(g: Gap, clip: Text)
    requires g.Valid()
    ensures |g.data| <= |Paste(g, clip).data|
  {
    if clip != [] {
      PasteGrows(g, clip[..|clip| - 1]);
    }
  }

  /** A key leaves the ends of the selection inside the storage. */
  lemma InsideAfter(s: State, e: Event)
    requires Inv(s) && !s.dialog.active && Producible(e)
    requires !e.shift && !KeepsSelection(e.key) ==> s.span == NONE
    ensures Inv(AfterKey(HandleKey(s, e), e))
  {
    if e.key == PasteKey {
      PasteGrows(s.gap, s.clip);
    }
  }

  /** `process_input`. */
  function Process(s: State, e: Event): (r: State)
    requires Inv(s) && Producible(e)
    ensures Inv(r)
  {
    if e.key == NoKey then s
    else if s.dialog.active then InDialog(s, e)
    else InText(s, e)
  }

  /** `poll_network` with a new text from the host: only a client takes it. */
  function Poll(s: State, text: Text): (r: State)
    requires Inv(s)
    ensures Inv(r)
  {
    if s.mode == Client then s.(gap := Refreshed(s.gap, text)) else s
  }

  // ---- runs ----

  datatype Input = Press(e: Event) | Snapshot(text: Text)

  predicate Possible(i: Input) {
    i.Press? ==> Producible(i.e)
  }

  function React(s: State, i: Input): (r: State)
    requires Inv(s) && Possible(i)
    ensures Inv(r)
  {
    match i
    case Press(e) => Process(s, e)
    case Snapshot(text) => Poll(s, text)
  }

  ghost predicate AllPossible(ins: seq<Input>) {
    forall k :: 0 <= k < |ins| ==> Possible(ins[k])
  }

  function Run(s: State, ins: seq<Input>): (r: State)
    requires Inv(s) && AllPossible(ins)
    ensures Inv(r)
  {
    if ins == [] then s else React(Run(s, ins[..|ins| - 1]), ins[|ins| - 1])
  }

  lemma OneStep(s: State, i: Input)
    requires Inv(s) && Possible(i)
    ensures AllPossible([i]) && Run(s, [i]) == React(s, i)
  {
    assert [i][..0] == [];
  }

  lemma RunOneMore(s: State, ins: seq<Input>, i: Input)
    requires Inv(s) && AllPossible(ins) && Possible(i)
    ensures AllPossible(ins + [i]) && Run(s, ins + [i]) == React(Run(s, ins), i)
  {
    assert (ins + [i])[..|ins|] == ins;
  }

  lemma {:induction false} RunTwice(s: State, a: seq<Input>, b: seq<Input>)
    requires Inv(s) && AllPossible(a) && AllPossible(b)
    ensures AllPossible(a + b) && Run(s, a + b) == Run(Run(s, a), b)
  {
    if b == [] {
      assert a + b == a;
    } else {
      var n := |b| - 1;
      assert (a + b)[..|a + b| - 1] == a + b[..n];
      RunTwice(s, a, b[..n]);
    }
  }

  lemma HandleFrame(s: State, e: Event)
    requires Inv(s) && !s.dialog.active
    ensures var r := HandleKey(s, e);
            && r.mode == s.mode && r.path == s.path && r.posts == s.posts
            && r.disk == (if e.key == QuitKey then Save(s.disk, s.path, s.gap.Content()) else s.disk)
            && (e.key != ChangeFileKey ==> r.dialog == s.dialog)
  {
  }

  /** What a key in the text leaves alone. */
  lemma InTextFrame(s: State, e: Event)
    requires Inv(s) && !s.dialog.active && Producible(e)
    ensures var r := InText(s, e);
            && r.mode == s.mode && r.path == s.path
            && r.disk == (if e.key == QuitKey then Save(s.disk, s.path, s.gap.Content()) else s.disk)
            && (e.key != ChangeFileKey ==> r.dialog == s.dialog)
            && r.posts == if s.mode == Host then s.posts + [r.gap.Content()] else s.posts
  {
    var s1 := SelectBefore(s, e);
    HandleFrame(s1, e);
    var s2 := HandleKey(s1, e);
    assert AfterKey(s2, e).gap == s2.gap && AfterKey(s2, e).mode == s2.mode;
  }

  lemma SameModeStep(s: State, i: Input)
    requires Inv(s) && Possible(i)
    ensures React(s, i).mode == s.mode
  {
    if i.Press? && i.e.key != NoKey && !s.dialog.active {
      InTextFrame(s, i.e);
    }
  }

  lemma {:induction false} SameMode(s: State, ins: seq<Input>)
    requires Inv(s) && AllPossible(ins)
    ensures Run(s, ins).mode == s.mode
  {
    if ins != [] {
      var n := |ins| - 1;
      SameMode(s, ins[..n]);
      SameModeStep(Run(s, ins[..n]), ins[n]);
    }
  }

  /**
   * In every state that keys can reach from an opened file, the loop of a copy
   * stays inside the storage, also after the file has been changed.
   */
  lemma CopyStaysInside(mode: Mode, path: Text, disk: Disk, clip: Text, ins: seq<Input>)
    requires mode != Client && AllPossible(ins)
    ensures var s := Run(Opened(mode, path, disk, clip), ins);
            && (!s.span.active ==> s.span == NONE)
            && Max(s.span.start, s.span.end) <= |s.gap.data|
  {
    SameMode(Opened(mode, path, disk, clip), ins);
  }

  const PASTE_PRESS := Press(Event(PasteKey, NUL, false, false))
  const SHIFT_LEFT := Event(LeftKey, NUL, true, false)

  lemma PasteKeyPastes(s: State)
    requires Inv(s) && s.mode == Offline && !s.dialog.active
    ensures React(s, PASTE_PRESS) == s.(gap := Paste(s.gap, s.clip), span := NONE)
  {
  }

  lemma ShiftLeftSelects(s: State)
    requires Inv(s) && s.mode == Offline && !s.dialog.active && !s.span.active
    ensures var g := Travel(s.gap, Left);
            React(s, Press(SHIFT_LEFT)) == s.(gap := g, span := Span(true, s.gap.start, g.start))
  {
  }

  /** The editor opened on a new file. */
  function OpenedNew(path: Text, clip: Text): (s: State)
    ensures Inv(s)
  {
    Opened(Offline, path, Disk(map[], {}, {}), clip)
  }

  /** A clipboard without carriage returns pasted into a new file. */
  lemma PastedIntoNew(path: Text, clip: Text)
    requires RETURN !in clip
    ensures var s := OpenedNew(path, clip); var g := Paste(s.gap, clip);
            && s.gap == Loaded([]) && Run(s, [PASTE_PRESS]) == s.(gap := g)
            && g.Content() == clip && g.start == |clip|
  {
    var s := OpenedNew(path, clip);
    OneStep(s, PASTE_PRESS);
    PasteKeyPastes(s);
    PasteIntoEmpty(s.gap, clip);
  }

  /** One byte selected by shift and left, at the end of what was pasted. */
  lemma LastByteSelected(path: Text, clip: Text, s: State)
    requires RETURN !in clip && clip != []
    requires s == Run(OpenedNew(path, clip), [PASTE_PRESS, Press(SHIFT_LEFT)])
    ensures s.mode == Offline && !s.dialog.active
    ensures s.span == Span(true, |clip|, |clip| - 1) && s.gap.start == |clip| - 1
  {
    var s0 := OpenedNew(path, clip);
    PastedIntoNew(path, clip);
    var s1 := Run(s0, [PASTE_PRESS]);
    RunOneMore(s0, [PASTE_PRESS], Press(SHIFT_LEFT));
    assert [PASTE_PRESS] + [Press(SHIFT_LEFT)] == [PASTE_PRESS, Press(SHIFT_LEFT)];
    ShiftLeftSelects(s1);
    OneLeft(s1.gap);
  }

  lemma ShiftedDialog(s: State)
    requires Inv(s) && s.mode == Offline && !s.dialog.active && s.span == Span(true, s.span.start, s.gap.start)
    ensures TextKey(s, Event(ChangeFileKey, NUL, true, false)) == s.(dialog := Dialog(true, [], false))
  {
  }

  lemma ConfirmsNew(s: State)
    requires s.gap.Valid() && s.dialog == Dialog(true, [], false)
    ensures var r := InDialog(s, CONFIRM[0].e);
            !r.dialog.active && r.span == s.span && r.gap == Loaded([])
  {
  }

  /**
   * Opening the dialog with shift and confirming it leaves a selection in the text
   * with an end beyond the storage: a copy would read outside it.
   */
  ghost predicate ShiftEscapes(s: State) {
    && Inv(s) && !s.dialog.active
    && var d := TextKey(s, Event(ChangeFileKey, NUL, true, false));
    && d.dialog.active
    && var r := InDialog(d, CONFIRM[0].e);
    && !r.dialog.active && r.span.active && r.span.start != r.span.end
    && |r.gap.data| < Max(r.span.start, r.span.end)
  }

  lemma SelectionOutlives(s: State)
    requires Inv(s) && s.mode == Offline && !s.dialog.active
    requires s.span == Span(true, s.span.start, s.gap.start) && s.gap.start < s.span.start && GAP_SIZE < s.span.start
    ensures ShiftEscapes(s)
  {
    ShiftedDialog(s);
    ConfirmsNew(s.(dialog := Dialog(true, [], false)));
  }

  /**
   * Shift on another key breaks it. Paste more than 1024 bytes into a new file,
   * select the last one, open the dialog with shift held, and confirm: the
   * selection outlives the text it was made in.
   */
  lemma ShiftElsewhereEscapes(clip: Text, s: State)
    requires |clip| > GAP_SIZE && RETURN !in clip
    requires s == Run(OpenedNew([1], clip), [PASTE_PRESS, Press(SHIFT_LEFT)])
    ensures !Producible(Event(ChangeFileKey, NUL, true, false)) && ShiftEscapes(s)
  {
    LastByteSelected([1], clip, s);
    SelectionOutlives(s);
  }

  // ---- what a key does to the text and the cursor ----

  /** The command a key stands for in the text, if it touches the text or the cursor. */
  function CommandOf(mode: Mode, e: Event, clip: Text): seq<Command> {
    if IsArrow(e.key) then [Go(MoveOf(e.key, e.ctrl))]
    else if mode == Client then []
    else match e.key
      case BackspaceKey => [Backspace]
      case CharKey => [Type(e.value)]
      case EnterKey => [Type(e.value)]
      case PasteKey => [PasteClip(clip)]
      case _ => []
  }

  lemma HandleGap(s: State, e: Event)
    requires Inv(s) && !s.dialog.active
    ensures var cmds := CommandOf(s.mode, e, s.clip);
            HandleKey(s, e).gap == if cmds == [] then s.gap else GapStep(s.gap, cmds[0])
  {
  }

  lemma ProcessGap(s: State, e: Event)
    requires Inv(s) && Producible(e) && !s.dialog.active
    ensures var cmds := CommandOf(s.mode, e, s.clip);
            Process(s, e).gap == if cmds == [] then s.gap else GapStep(s.gap, cmds[0])
  {
    var s1 := SelectBefore(s, e);
    HandleGap(s1, e);
    assert s1.gap == s.gap && s1.mode == s.mode && s1.clip == s.clip;
    assert AfterKey(HandleKey(s1, e), e).gap == HandleKey(s1, e).gap;
  }

  lemma OneCommand(d: Doc, cmd: Command)
    requires d.Valid()
    ensures DocRun(d, [cmd]) == DocStep(d, cmd)
  {
    assert [cmd][..0] == [];
  }

  lemma AtMostOneCommand(g: Gap, r: Gap, cmds: seq<Command>)
    requires g.Valid() && |cmds| <= 1 && r == if cmds == [] then g else GapStep(g, cmds[0])
    ensures View(r) == DocRun(View(g), cmds)
  {
    if cmds != [] {
      StepRefines(g, cmds[0]);
      OneCommand(View(g), cmds[0]);
      assert cmds == [cmds[0]];
    }
  }

  /** Keys in the text act on the gap buffer as commands on a text with a cursor. */
  lemma KeyRefines(s: State, e: Event)
    requires Inv(s) && Producible(e) && !s.dialog.active
    ensures View(Process(s, e).gap) == DocRun(View(s.gap), CommandOf(s.mode, e, s.clip))
  {
    ProcessGap(s, e);
    AtMostOneCommand(s.gap, Process(s, e).gap, CommandOf(s.mode, e, s.clip));
  }

  /** The commands of a run of inputs. */
  function CommandsOf(s: State, ins: seq<Input>): seq<Command>
    requires Inv(s) && AllPossible(ins)
  {
    if ins == [] then []
    else
      var n := |ins| - 1;
      var before := Run(s, ins[..n]);
      CommandsOf(s, ins[..n]) + if ins[n].Press? then CommandOf(s.mode, ins[n].e, before.clip) else []
  }

  lemma DocRunMore(d: Doc, a: seq<Command>, b: seq<Command>)
    requires d.Valid() && |b| <= 1
    ensures DocRun(d, a + b) == DocRun(DocRun(d, a), b)
  {
    if b == [] {
      assert a + b == a;
    } else {
      assert (a + b)[..|a|] == a && b[..0] == [];
    }
  }

  /** Inputs that do not open the dialog. */
  ghost predicate StaysInFile(ins: seq<Input>) {
    forall k :: 0 <= k < |ins| ==> ins[k].Press? ==> ins[k].e.key != ChangeFileKey
  }

  ghost predicate Editing(s: State) {
    Inv(s) && s.mode != Client && !s.dialog.active
  }

  lemma ReactEdits(s: State, i: Input)
    requires Editing(s) && Possible(i) && (i.Press? ==> i.e.key != ChangeFileKey)
    ensures Editing(React(s, i)) && React(s, i).mode == s.mode
    ensures View(React(s, i).gap)
            == DocRun(View(s.gap), if i.Press? then CommandOf(s.mode, i.e, s.clip) else [])
  {
    if i.Press? {
      KeyRefines(s, i.e);
      if i.e.key != NoKey {
        InTextFrame(s, i.e);
      }
    }
  }

  /**
   * Any run of inputs in one file acts on the editor's buffer as its commands do
   * on a text with a cursor.
   */
  lemma {:induction false} EditingRefines(s: State, ins: seq<Input>)
    requires Editing(s) && AllPossible(ins) && StaysInFile(ins)
    ensures Editing(Run(s, ins)) && Run(s, ins).mode == s.mode
    ensures View(Run(s, ins).gap) == DocRun(View(s.gap), CommandsOf(s, ins))
  {
    if ins != [] {
      var n := |ins| - 1;
      var before := Run(s, ins[..n]);
      EditingRefines(s, ins[..n]);
      ReactEdits(before, ins[n]);
      DocRunMore(View(s.gap), CommandsOf(s, ins[..n]),
                 if ins[n].Press? then CommandOf(s.mode, ins[n].e, before.clip) else []);
    }
  }

  /** A client's keys never change its text. */
  lemma ClientKeepsText(s: State, e: Event)
    requires Inv(s) && Producible(e) && s.mode == Client
    ensures Process(s, e).gap.Content() == s.gap.Content()
  {
    ProcessGap(s, e);
    if IsArrow(e.key) {
      TravelRefines(s.gap, MoveOf(e.key, e.ctrl));
    }
  }

  /**
   * A client saves when it quits, but it has been opened with the empty path: no
   * run changes a file.
   */
  lemma {:induction false} ClientWritesNothing(disk: Disk, clip: Text, ins: seq<Input>)
    requires AllPossible(ins)
    ensures var r := Run(Opened(Client, [], disk, clip), ins);
            r.mode == Client && r.path == [] && r.disk == disk
  {
    if ins != [] {
      var n := |ins| - 1;
      ClientWritesNothing(disk, clip, ins[..n]);
      var r := Run(Opened(Client, [], disk, clip), ins[..n]);
      if ins[n].Press? && ins[n].e.key != NoKey {
        InTextFrame(r, ins[n].e);
      }
    }
  }

  /** Only a host posts: its text, after every key but the empty one. */
  lemma HostPosts(s: State, e: Event)
    requires Inv(s) && Producible(e) && !s.dialog.active
    ensures var r := Process(s, e);
            r.posts == if s.mode == Host && e.key != NoKey then s.posts + [r.gap.Content()] else s.posts
  {
    if e.key != NoKey {
      InTextFrame(s, e);
    }
  }

  // ---- how large the storage gets ----

  /** The longest text among the states of a run. */
  ghost function Longest(s: State, ins: seq<Input>): (n: nat)
    requires Inv(s) && AllPossible(ins)
  {
    var here := |Run(s, ins).gap.Content()|;
    if ins == [] then here else Max(here, Longest(s, ins[..|ins| - 1]))
  }

  lemma DialogBounded(s: State, e: Event)
    requires Inv(s) && s.dialog.active
    ensures Bounded(s.gap, InDialog(s, e).gap)
  {
  }

  lemma ReactBounded(s: State, i: Input)
    requires Inv(s) && Possible(i)
    ensures Bounded(s.gap, React(s, i).gap)
  {
    if i.Press? && s.dialog.active {
      DialogBounded(s, i.e);
    } else if i.Press? {
      var cmds := CommandOf(s.mode, i.e, s.clip);
      ProcessGap(s, i.e);
      if cmds != [] {
        StepBounded(s.gap, cmds[0]);
      }
    }
  }

  /**
   * Over any run, of keys and of texts from a host, the storage never exceeds
   * 1024 plus the longest text reached so far.
   */
  lemma {:induction false} RunBounded(s: State, ins: seq<Input>)
    requires Inv(s) && AllPossible(ins) && |s.gap.data| <= GAP_SIZE + |s.gap.Content()|
    ensures |Run(s, ins).gap.data| <= GAP_SIZE + Longest(s, ins)
  {
    if ins != [] {
      var n := |ins| - 1;
      RunBounded(s, ins[..n]);
      ReactBounded(Run(s, ins[..n]), ins[n]);
    }
  }

  lemma CommandKeepsRoom(g: Gap, cmd: Command)
    requires g.Valid()
    ensures |g.data| <= |GapStep(g, cmd).data|
  {
    if cmd.PasteClip? {
      PasteGrows(g, cmd.clip);
    }
  }

  lemma DialogKeepsRoom(s: State, e: Event)
    requires Inv(s) && s.dialog.active && GAP_SIZE <= |s.gap.data|
    ensures GAP_SIZE <= |InDialog(s, e).gap.data|
  {
  }

  lemma ReactKeepsRoom(s: State, i: Input)
    requires Inv(s) && Possible(i) && s.mode != Client && GAP_SIZE <= |s.gap.data|
    ensures GAP_SIZE <= |React(s, i).gap.data|
  {
    if i.Press? && s.dialog.active {
      DialogKeepsRoom(s, i.e);
    } else if i.Press? {
      var cmds := CommandOf(s.mode, i.e, s.clip);
      ProcessGap(s, i.e);
      if cmds != [] {
        CommandKeepsRoom(s.gap, cmds[0]);
      }
    }
  }

  lemma {:induction false} RunKeepsRoom(s: State, ins: seq<Input>)
    requires Inv(s) && AllPossible(ins) && s.mode != Client && GAP_SIZE <= |s.gap.data|
    ensures GAP_SIZE <= |Run(s, ins).gap.data|
  {
    if ins != [] {
      var n := |ins| - 1;
      RunKeepsRoom(s, ins[..n]);
      SameMode(s, ins[..n]);
      ReactKeepsRoom(Run(s, ins[..n]), ins[n]);
    }
  }

  /** The same from an opened file; outside client mode there are always 1024 bytes of storage. */
  lemma CapacityBound(mode: Mode, path: Text, disk: Disk, clip: Text, ins: seq<Input>)
    requires AllPossible(ins)
    ensures var s := Opened(mode, path, disk, clip); var size := |Run(s, ins).gap.data|;
            size <= GAP_SIZE + Longest(s, ins) && (mode != Client ==> GAP_SIZE <= size)
  {
    RunBounded(Opened(mode, path, disk, clip), ins);
    if mode != Client {
      RunKeepsRoom(Opened(mode, path, disk, clip), ins);
    }
  }

  // ---- changing the file ----

  /** In the dialog no key but Enter touches the text, the path or the files. */
  lemma DialogLeavesText(s: State, e: Event)
    requires Inv(s) && Producible(e) && s.dialog.active && e.key != EnterKey
    ensures var r := Process(s, e);
            r.gap == s.gap && r.path == s.path && r.disk == s.disk && r.span == s.span
  {
  }

  /**
   * Enter stores the old text under the old path and loads what the new path
   * holds then. No third file changes, and the new path's file only if it cannot
   * be read: then it is emptied.
   */
  lemma ConfirmSwitches(s: State, e: Event)
    requires Inv(s) && Producible(e) && s.dialog.active && e.key == EnterKey
    ensures var r := Process(s, e); var d, p, t := s.disk, s.dialog.path, s.gap.Content();
            && r.path == p && !r.dialog.active && r.gap.start == 0
            && r.disk.files - {s.path, p} == d.files - {s.path, p}
            && (p != s.path && d.Writable(s.path) ==> s.path in r.disk.files && r.disk.files[s.path] == t)
            && (p != s.path && !d.Writable(s.path) ==> r.disk.files - {p} == d.files - {p})
            && r.gap.Content() == (if p == s.path && d.Writable(p) && p !in d.unreadable then t else d.Holds(p))
            && (d.Writable(p) ==> p in r.disk.files && r.disk.files[p] == r.gap.Content())
            && (p in d.files && !d.Writable(p) ==> p in r.disk.files && r.disk.files[p] == d.files[p])
  {
  }

  /** The keys that type a path. */
  function Typed(p: Text): (ins: seq<Input>)
    ensures AllPossible(ins)
  {
    if p == [] then [] else Typed(p[..|p| - 1]) + [Press(Event(CharKey, p[|p| - 1], false, false))]
  }

  const OPEN_DIALOG := [Press(Event(ChangeFileKey, NUL, false, false))]
  const CONFIRM := [Press(Event(EnterKey, NEWLINE, false, false))]

  /** The keys that change to file `p`. */
  function SwitchTo(p: Text): (ins: seq<Input>)
    ensures AllPossible(ins)
  {
    OPEN_DIALOG + Typed(p) + CONFIRM
  }

  lemma TypesOne(s: State, b: byte)
    requires Inv(s) && s.dialog.active
    ensures React(s, Press(Event(CharKey, b, false, false)))
            == s.(dialog := s.dialog.(path := s.dialog.path + [b]))
  {
  }

  lemma {:induction false} TypedIntoDialog(s: State, p: Text)
    requires Inv(s) && s.dialog == Dialog(true, [], false)
    ensures Run(s, Typed(p)) == s.(dialog := Dialog(true, p, false))
  {
    if p != [] {
      var n := |p| - 1;
      TypedIntoDialog(s, p[..n]);
      var ins := Typed(p);
      assert ins[..|ins| - 1] == Typed(p[..n]);
      TypesOne(Run(s, Typed(p[..n])), p[n]);
      assert p[..n] + [p[n]] == p;
    }
  }

  ghost predicate InTextOffline(s: State) {
    Inv(s) && s.mode == Offline && !s.dialog.active
  }

  lemma DialogOpens(s: State)
    requires InTextOffline(s)
    ensures Run(s, OPEN_DIALOG) == s.(span := NONE, dialog := Dialog(true, [], false))
  {
    OneStep(s, OPEN_DIALOG[0]);
  }

  lemma DialogConfirms(s: State)
    requires Inv(s) && s.dialog.active
    ensures Run(s, CONFIRM) == SwitchFile(s.(dialog := Dialog(false, s.dialog.path, true)), s.dialog.path)
  {
    OneStep(s, CONFIRM[0]);
  }

  lemma SwitchArrives(s: State, p: Text)
    requires InTextOffline(s)
    ensures Run(s, SwitchTo(p)) == SwitchFile(s.(span := NONE, dialog := Dialog(false, p, true)), p)
  {
    var s1 := s.(span := NONE, dialog := Dialog(true, [], false));
    var s2 := s1.(dialog := Dialog(true, p, false));
    DialogOpens(s);
    TypedIntoDialog(s1, p);
    RunTwice(s, OPEN_DIALOG, Typed(p));
    RunTwice(s, OPEN_DIALOG + Typed(p), CONFIRM);
    assert Run(s, OPEN_DIALOG + Typed(p)) == s2;
    DialogConfirms(s2);
  }

  /** What a change to another file does to the files. */
  lemma SwitchSaves(s: State, p: Text)
    requires s.gap.Valid() && p != s.path
    ensures var r := SwitchFile(s, p);
            && r.path == p && r.mode == s.mode && SameRights(r.disk, s.disk)
            && r.gap.Content() == s.disk.Holds(p)
            && r.disk.Holds(s.path) ==
                 if s.disk.Writable(s.path) && s.path !in s.disk.unreadable then s.gap.Content()
                 else s.disk.Holds(s.path)
  {
  }

  lemma KeyInFile(s: State, i: Input)
    requires InTextOffline(s) && Possible(i) && (i.Press? ==> i.e.key != ChangeFileKey)
    ensures var r := React(s, i);
            && InTextOffline(r) && r.path == s.path
            && (r.disk == s.disk || r.disk == Save(s.disk, s.path, s.gap.Content()))
  {
    if i.Press? && i.e.key != NoKey {
      InTextFrame(s, i.e);
    }
  }

  /** Whatever is done in one file, the others stay as they are. */
  lemma {:induction false} RunInFile(s: State, ins: seq<Input>, q: Text)
    requires InTextOffline(s) && AllPossible(ins) && StaysInFile(ins) && q != s.path
    ensures var r := Run(s, ins);
            InTextOffline(r) && r.path == s.path && r.disk.Holds(q) == s.disk.Holds(q)
  {
    if ins != [] {
      var n := |ins| - 1;
      RunInFile(s, ins[..n], q);
      KeyInFile(Run(s, ins[..n]), ins[n]);
    }
  }

  /**
   * Changing to another file, working there, and changing back gives the text
   * back exactly when the first file can be both written and read, or a load of
   * it gave this text already.
   */
  lemma ThereAndBack(s: State, p: Text, ins: seq<Input>)
    requires InTextOffline(s) && p != s.path && AllPossible(ins) && StaysInFile(ins)
    ensures AllPossible(SwitchTo(p) + ins + SwitchTo(s.path))
    ensures var r := Run(s, SwitchTo(p) + ins + SwitchTo(s.path));
            && r.path == s.path
            && (r.gap.Content() == s.gap.Content()
                <==> (s.disk.Writable(s.path) && s.path !in s.disk.unreadable)
                     || s.disk.Holds(s.path) == s.gap.Content())
  {
    var s0 := s.(span := NONE, dialog := Dialog(false, p, true));
    SwitchArrives(s, p);
    SwitchSaves(s0, p);
    var s1 := Run(s, SwitchTo(p));
    RunTwice(s, SwitchTo(p), ins);
    RunInFile(s1, ins, s.path);
    var s2 := Run(s1, ins);
    RunTwice(s, SwitchTo(p) + ins, SwitchTo(s.path));
    SwitchArrives(s2, s.path);
    SwitchSaves(s2.(span := NONE, dialog := Dialog(false, s.path, true)), s.path);
  }
}
