/**
 * The gap buffer as a value: the raw bytes with the two ends of the gap. The
 * class in GapBuffers.dfy is proved against these functions; here they are
 * proved against a plain text with a cursor.
 */
module GapModel {
  import opened Bytes
  import opened Moves

  datatype Gap = Gap(data: seq<byte>, start: nat, end: nat) {
    predicate Valid() {
      start <= end <= |data|
    }

    function Content(): (t: Text)
      requires Valid()
      ensures start <= |t| == |data| - (end - start)
    {
      data[..start] + data[end..]
    }
  }

  // ---- the primitive moves ----

  function StepLeft(g: Gap): (r: Gap)
    requires g.Valid()
    ensures r.Valid() && |r.data| == |g.data|
  {
    if g.start == 0 then g
    else Gap(g.data[g.end - 1 := g.data[g.start - 1]], g.start - 1, g.end - 1)
  }

  function StepRight(g: Gap): (r: Gap)
    requires g.Valid()
    ensures r.Valid() && |r.data| == |g.data|
  {
    if g.end == |g.data| then g
    else Gap(g.data[g.start := g.data[g.end]], g.start + 1, g.end + 1)
  }

  lemma LeftKeepsText(g: Gap)
    requires g.Valid()
    ensures StepLeft(g).Content() == g.Content()
    ensures StepLeft(g).end - StepLeft(g).start == g.end - g.start
  {
    if g.start > 0 {
      var r := StepLeft(g);
      assert r.data[..r.start] == g.data[..r.start];
      assert r.data[r.end..] == [g.data[r.start]] + g.data[g.end..];
      assert g.data[..g.start] == g.data[..r.start] + [g.data[r.start]];
    }
  }

  lemma RightKeepsText(g: Gap)
    requires g.Valid()
    ensures StepRight(g).Content() == g.Content()
    ensures StepRight(g).end - StepRight(g).start == g.end - g.start
  {
    if g.end < |g.data| {
      var r := StepRight(g);
      assert r.data[..r.start] == g.data[..g.start] + [g.data[g.end]];
      assert r.data[r.end..] == g.data[r.end..];
      assert g.data[g.end..] == [g.data[g.end]] + g.data[r.end..];
    }
  }

  /** `n` primitive moves to the left. */
  function LeftBy(g: Gap, n: nat): (r: Gap)
    requires g.Valid()
    ensures r.Valid() && |r.data| == |g.data|
  {
    if n == 0 then g else StepLeft(LeftBy(g, n - 1))
  }

  function RightBy(g: Gap, n: nat): (r: Gap)
    requires g.Valid()
    ensures r.Valid() && |r.data| == |g.data|
  {
    if n == 0 then g else StepRight(RightBy(g, n - 1))
  }

  lemma {:induction false} LeftByKeepsText(g: Gap, n: nat)
    requires g.Valid() && n <= g.start
    ensures var r := LeftBy(g, n);
            r.Content() == g.Content() && r.start == g.start - n && r.end == g.end - n
  {
    if n > 0 {
      LeftByKeepsText(g, n - 1);
      var h := LeftBy(g, n - 1);
      LeftKeepsText(h);
      assert h.start > 0 && LeftBy(g, n) == StepLeft(h);
    }
  }

  lemma {:induction false} RightByKeepsText(g: Gap, n: nat)
    requires g.Valid() && g.end + n <= |g.data|
    ensures var r := RightBy(g, n);
            r.Content() == g.Content() && r.start == g.start + n && r.end == g.end + n
  {
    if n > 0 {
      RightByKeepsText(g, n - 1);
      var h := RightBy(g, n - 1);
      RightKeepsText(h);
      assert h.end < |h.data| && RightBy(g, n) == StepRight(h);
    }
  }

  // ---- the commands ----

  /** A cursor command on the gap: its trip, one primitive move at a time. */
  function Travel(g: Gap, m: Move): (r: Gap)
    requires g.Valid()
    ensures r.Valid() && |r.data| == |g.data|
  {
    var trip := TripOf(m, g.Content(), g.start);
    RightBy(LeftBy(g, trip.left), trip.right)
  }

  /** `grow_gap`: new bytes at the end of the storage, and the right part moved onto them. */
  function Grow(g: Gap, amount: nat): (r: Gap)
    requires g.Valid()
    ensures r.Valid() && |r.data| == |g.data| + amount
  {
    var wide := g.data + Zeros(amount);
    Gap(wide[..g.end + amount] + g.data[g.end..], g.start, g.end + amount)
  }

  function Zeros(n: nat): (z: seq<byte>)
    ensures |z| == n
  {
    seq(n, _ => NUL)
  }

  /** Both line-end bytes are stored as a newline. */
  function Stored(b: byte): byte {
    if b == RETURN then NEWLINE else b
  }

  function Insert(g: Gap, b: byte): (r: Gap)
    requires g.Valid()
    ensures r.Valid() && r.start == g.start + 1
  {
    var h := if g.start == g.end then Grow(g, GAP_SIZE) else g;
    Gap(h.data[h.start := Stored(b)], h.start + 1, h.end)
  }

  function Erase(g: Gap): (r: Gap)
    requires g.Valid()
    ensures r.Valid() && |r.data| == |g.data|
  {
    if g.start > 0 then g.(start := g.start - 1) else g
  }

  /** Paste: the clipboard byte by byte, carriage returns skipped. */
  function Paste(g: Gap, clip: Text): (r: Gap)
    requires g.Valid()
    ensures r.Valid()
  {
    if clip == [] then g
    else
      var h := Paste(g, clip[..|clip| - 1]);
      var b := clip[|clip| - 1];
      if b == RETURN then h else Insert(h, b)
  }

  /** A buffer fresh from a file: the whole text behind a gap of 1024. */
  function Loaded(text: Text): (g: Gap)
    ensures g.Valid() && g.Content() == text && g.start == 0
  {
    Gap(Zeros(GAP_SIZE) + text, 0, GAP_SIZE)
  }

  /** A client's buffer after a broadcast: no gap at all, the cursor kept where it fits. */
  function Refreshed(g: Gap, text: Text): (r: Gap)
    requires g.Valid()
    ensures r.Valid() && r.Content() == text
  {
    var c := Min(g.start, |text|);
    Gap(text, c, c)
  }

  // ---- the plain view ----

  /** A text and a cursor: what a gap buffer stands for. */
  datatype Doc = Doc(text: Text, cursor: nat) {
    predicate Valid() {
      cursor <= |text|
    }
  }

  function View(g: Gap): (d: Doc)
    requires g.Valid()
    ensures d.Valid()
  {
    Doc(g.Content(), g.start)
  }

  datatype Command = Go(m: Move) | Type(b: byte) | Backspace | PasteClip(clip: Text)

  /** `t` with `piece` put in at offset `c`. */
  function Spliced(t: Text, c: nat, piece: Text): Text
    requires c <= |t|
  {
    t[..c] + piece + t[c..]
  }

  function WithoutReturns(clip: Text): (r: Text)
    ensures RETURN !in r && |r| <= |clip|
    ensures RETURN !in clip ==> r == clip
  {
    if clip == [] then []
    else
      var n := |clip| - 1;
      WithoutReturns(clip[..n]) + if clip[n] == RETURN then [] else [clip[n]]
  }

  /** Each byte is kept or dropped on its own. */
  lemma {:induction false} ReturnsDropOut(a: Text, b: Text)
    ensures WithoutReturns(a + b) == WithoutReturns(a) + WithoutReturns(b)
  {
    if b == [] {
      assert a + b == a;
    } else {
      var n := |b| - 1;
      assert (a + b)[..|a + b| - 1] == a + b[..n];
      ReturnsDropOut(a, b[..n]);
    }
  }

  lemma OneByteDropsOut(b: byte)
    ensures WithoutReturns([b]) == if b == 13 then [] else [b]
  {
    assert [b][..0] == [];
  }

  /** The commands on a text and a cursor. */
  function DocStep(d: Doc, cmd: Command): (r: Doc)
    requires d.Valid()
    ensures r.Valid()
  {
    match cmd
    case Go(m) => Doc(d.text, Dest(m, d.text, d.cursor))
    case Type(b) => Doc(Spliced(d.text, d.cursor, [Stored(b)]), d.cursor + 1)
    case Backspace =>
      if d.cursor == 0 then d
      else Doc(d.text[..d.cursor - 1] + d.text[d.cursor..], d.cursor - 1)
    case PasteClip(clip) =>
      var piece := WithoutReturns(clip);
      Doc(Spliced(d.text, d.cursor, piece), d.cursor + |piece|)
  }

  function GapStep(g: Gap, cmd: Command): (r: Gap)
    requires g.Valid()
    ensures r.Valid()
  {
    match cmd
    case Go(m) => Travel(g, m)
    case Type(b) => Insert(g, b)
    case Backspace => Erase(g)
    case PasteClip(clip) => Paste(g, clip)
  }

  function DocRun(d: Doc, cmds: seq<Command>): (r: Doc)
    requires d.Valid()
    ensures r.Valid()
  {
    if cmds == [] then d else DocStep(DocRun(d, cmds[..|cmds| - 1]), cmds[|cmds| - 1])
  }

  function GapRun(g: Gap, cmds: seq<Command>): (r: Gap)
    requires g.Valid()
    ensures r.Valid()
  {
    if cmds == [] then g else GapStep(GapRun(g, cmds[..|cmds| - 1]), cmds[|cmds| - 1])
  }

  // ---- refinement ----

  /** The arrow to the left is one primitive move. */
  lemma OneLeft(g: Gap)
    requires g.Valid()
    ensures Travel(g, Left) == StepLeft(g)
  {
    if g.start > 0 {
      assert LeftBy(g, 1) == StepLeft(LeftBy(g, 0));
    }
  }

  lemma OneRight(g: Gap)
    requires g.Valid()
    ensures Travel(g, Right) == StepRight(g)
  {
    assert LeftBy(g, 0) == g;
    if g.end < |g.data| {
      assert RightBy(g, 1) == StepRight(RightBy(g, 0));
    }
  }

  lemma TravelRefines(g: Gap, m: Move)
    requires g.Valid()
    ensures View(Travel(g, m)) == Doc(g.Content(), Dest(m, g.Content(), g.start))
    ensures Travel(g, m).end - Travel(g, m).start == g.end - g.start
  {
    var trip := TripOf(m, g.Content(), g.start);
    LeftByKeepsText(g, trip.left);
    RightByKeepsText(LeftBy(g, trip.left), trip.right);
  }

  /** Growing widens the gap by exactly the amount and changes neither text nor cursor. */
  lemma GrowRefines(g: Gap, amount: nat)
    requires g.Valid()
    ensures View(Grow(g, amount)) == View(g)
    ensures Grow(g, amount).end - Grow(g, amount).start == g.end - g.start + amount
  {
    var r := Grow(g, amount);
    assert r.data[..r.start] == g.data[..g.start];
    assert r.data[r.end..] == g.data[g.end..];
  }

  lemma InsertRefines(g: Gap, b: byte)
    requires g.Valid()
    ensures View(Insert(g, b)) == DocStep(View(g), Type(b))
  {
    var h := if g.start == g.end then Grow(g, GAP_SIZE) else g;
    GrowRefines(g, GAP_SIZE);
    assert View(h) == View(g);
    var t := g.Content();
    assert t[..g.start] == h.data[..h.start];
    assert t[g.start..] == h.data[h.end..];
    var r := Insert(g, b);
    assert r.data[..r.start] == h.data[..h.start] + [Stored(b)];
    assert r.data[r.end..] == h.data[h.end..];
  }

  lemma EraseRefines(g: Gap)
    requires g.Valid()
    ensures View(Erase(g)) == DocStep(View(g), Backspace)
  {
    var t := g.Content();
    if g.start > 0 {
      assert t[..g.start - 1] == g.data[..g.start - 1];
      assert t[g.start..] == g.data[g.end..];
    }
  }

  lemma {:induction false} PasteSplices(g: Gap, clip: Text, piece: Text)
    requires g.Valid() && piece == WithoutReturns(clip)
    ensures View(Paste(g, clip)) == Doc(Spliced(g.Content(), g.start, piece), g.start + |piece|)
  {
    var t, c := g.Content(), g.start;
    if clip == [] {
      assert Spliced(t, c, []) == t;
    } else {
      var before, b := clip[..|clip| - 1], clip[|clip| - 1];
      var done := WithoutReturns(before);
      PasteSplices(g, before, done);
      if b == RETURN {
        assert piece == done + [] == done;
      } else {
        PasteOneMore(Paste(g, before), t, c, done, b);
      }
    }
  }

  /** Pasting byte by byte is one insertion of the clipboard without carriage returns. */
  lemma PasteRefines(g: Gap, clip: Text)
    requires g.Valid()
    ensures View(Paste(g, clip)) == DocStep(View(g), PasteClip(clip))
  {
    PasteSplices(g, clip, WithoutReturns(clip));
  }

  lemma PasteIntoEmpty(g: Gap, clip: Text)
    requires g.Valid() && g.Content() == [] && RETURN !in clip
    ensures Paste(g, clip).Content() == clip && Paste(g, clip).start == |clip|
  {
    PasteSplices(g, clip, clip);
    assert Spliced([], 0, clip) == clip;
  }

  /** A clipboard that fits the gap fills it from the left and leaves the storage as large as it was. */
  lemma {:induction false} PasteFills(g: Gap, clip: Text)
    requires g.Valid() && |clip| <= g.end - g.start && RETURN !in clip
    ensures var r := Paste(g, clip);
            r.start == g.start + |clip| && r.end == g.end && |r.data| == |g.data|
  {
    if clip != [] {
      PasteFills(g, clip[..|clip| - 1]);
    }
  }

  lemma PasteOneMore(h: Gap, t: Text, c: nat, piece: Text, b: byte)
    requires h.Valid() && c <= |t| && b != RETURN
    requires View(h) == Doc(Spliced(t, c, piece), c + |piece|)
    ensures View(Insert(h, b)) == Doc(Spliced(t, c, piece + [b]), c + |piece + [b]|)
  {
    InsertRefines(h, b);
    SpliceTwice(t, c, piece, [b]);
  }

  lemma SpliceTwice(t: Text, c: nat, a: Text, b: Text)
    requires c <= |t|
    ensures Spliced(Spliced(t, c, a), c + |a|, b) == Spliced(t, c, a + b)
  {
    var s := Spliced(t, c, a);
    assert s[..c + |a|] == t[..c] + a;
    assert s[c + |a|..] == t[c..];
  }

  lemma StepRefines(g: Gap, cmd: Command)
    requires g.Valid()
    ensures View(GapStep(g, cmd)) == DocStep(View(g), cmd)
  {
    match cmd
    case Go(m) => TravelRefines(g, m);
    case Type(b) => InsertRefines(g, b);
    case Backspace => EraseRefines(g);
    case PasteClip(clip) => PasteRefines(g, clip);
  }

  /** Any run of commands acts on the gap buffer as it does on a text with a cursor. */
  lemma {:induction false} RunRefines(g: Gap, cmds: seq<Command>)
    requires g.Valid()
    ensures View(GapRun(g, cmds)) == DocRun(View(g), cmds)
  {
    if cmds != [] {
      var n := |cmds| - 1;
      RunRefines(g, cmds[..n]);
      StepRefines(GapRun(g, cmds[..n]), cmds[n]);
    }
  }

  // ---- how large the storage gets ----

  /** Storage grows only to what it was, or to 1024 more than the text it now holds. */
  ghost predicate Bounded(before: Gap, after: Gap)
    requires before.Valid() && after.Valid()
  {
    |after.data| <= Max(|before.data|, GAP_SIZE + |after.Content()|)
  }

  lemma InsertBounded(g: Gap, b: byte)
    requires g.Valid()
    ensures Bounded(g, Insert(g, b)) && |Insert(g, b).Content()| == |g.Content()| + 1
  {
    InsertRefines(g, b);
  }

  lemma {:induction false} PasteBounded(g: Gap, clip: Text)
    requires g.Valid()
    ensures Bounded(g, Paste(g, clip)) && |g.Content()| <= |Paste(g, clip).Content()|
  {
    if clip != [] {
      var n := |clip| - 1;
      PasteBounded(g, clip[..n]);
      InsertBounded(Paste(g, clip[..n]), clip[n]);
    }
  }

  lemma StepBounded(g: Gap, cmd: Command)
    requires g.Valid()
    ensures Bounded(g, GapStep(g, cmd))
  {
    match cmd
    case Go(m) =>
    case Type(b) => InsertBounded(g, b);
    case Backspace =>
    case PasteClip(clip) => PasteBounded(g, clip);
  }
}
