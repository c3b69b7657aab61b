/**
 * Host, server and clients as one system of atomic steps: keys on either side,
 * the network thread's work, and bytes on their way. Time plays no part; any
 * order of the steps is a run.
 */
module Replication {
  import opened Bytes
  import opened GapModel
  import opened Wire
  import opened Network
  import opened EditorModel

  /**
   * A client and its connection. `frames`, `delivered`, `adopted`, `joined` and
   * `lost` are the history: what was sent to it, what its receiver has
   * published, what its editor has taken over, the text in force when it
   * joined, and the bytes that a broken connection swallowed.
   */
  datatype Peer = Peer(
    open: bool,
    wire: seq<byte>,
    reader: Reader,
    mailbox: Text,
    newData: bool,
    editor: State,
    joined: nat,
    frames: seq<Text>,
    delivered: seq<Text>,
    adopted: seq<Text>,
    lost: seq<byte>)

  /**
   * The host's editor with the texts it has posted, the server's latest text and
   * list of sessions, and every client there has been. `history` is all values
   * the latest text has had, from the empty one on; `keyed` says whether the
   * host has processed a key.
   */
  datatype Sys = Sys(
    host: State,
    latest: Text,
    listed: seq<nat>,
    peers: seq<Peer>,
    history: seq<Text>,
    keyed: bool)

  /**
   * What happens to one client: its connection ends or loses bytes, a byte
   * arrives, a read is complete, its editor polls the mailbox or takes a key.
   */
  datatype Act = Close | Lose(n: nat) | Arrive | ReadDone | ClientPoll | ClientKey(e: Event)

  datatype Step = HostKey(e: Event) | RunPost | Join(editor: State) | Own(i: nat, act: Act)

  function SendFrame(p: Peer, data: Text): Peer {
    p.(wire := p.wire + Packet(data), frames := p.frames + [data])
  }

  /** `broadcast`: each listed session that is open is sent the text, the others are unlisted. */
  function Broadcast(s: Sys, data: Text): Sys
    requires AllListed(s.listed, |s.peers|)
  {
    s.(latest := data,
       history := s.history + [data],
       peers := seq(|s.peers|, i requires 0 <= i < |s.peers| =>
         if i in s.listed && s.peers[i].open then SendFrame(s.peers[i], data) else s.peers[i]),
       listed := StillOpen(s.listed, s.peers))
  }

  ghost predicate AllListed(listed: seq<nat>, n: nat) {
    forall j :: 0 <= j < |listed| ==> listed[j] < n
  }

  function StillOpen(listed: seq<nat>, peers: seq<Peer>): (r: seq<nat>)
    requires AllListed(listed, |peers|)
    ensures forall k :: k in r <==> k in listed && peers[k].open
  {
    if listed == [] then []
    else
      var n := |listed| - 1;
      assert listed == listed[..n] + [listed[n]];
      if peers[listed[n]].open then StillOpen(listed[..n], peers) + [listed[n]]
      else StillOpen(listed[..n], peers)
  }

  /** A fresh connection: the latest text is sent at once, unless it is empty. */
  function NewPeer(s: Sys, editor: State): Peer
    requires |s.history| > 0
  {
    var frames := if s.latest == [] then [] else [s.latest];
    var wire := if s.latest == [] then [] else Packet(s.latest);
    Peer(true, wire, ReadingHeader([]), [], false, editor, |s.history| - 1, frames, [], [], [])
  }

  /** The read of a client is complete: its handler runs. */
  function Handled(p: Peer): Peer
    requires p.reader.Valid() && p.reader.Ready()
  {
    var h := Handle(p.reader);
    if h.1 == [] then p.(reader := h.0)
    else p.(reader := h.0, mailbox := h.1[0], newData := true, delivered := p.delivered + h.1)
  }

  function Polled(p: Peer): Peer
    requires EditorModel.Inv(p.editor)
  {
    p.(editor := Poll(p.editor, p.mailbox), newData := false, adopted := p.adopted + [p.mailbox])
  }

  predicate Can(p: Peer, act: Act) {
    match act
    case Close => true
    case Lose(n) => !p.open && n <= |p.wire|
    case Arrive => p.wire != [] && !p.reader.Ready()
    case ReadDone => p.reader.Ready()
    case ClientPoll => p.newData
    case ClientKey(e) => Producible(e)
  }

  function Acted(p: Peer, act: Act): Peer
    requires EditorModel.Inv(p.editor) && p.reader.Valid() && Can(p, act)
  {
    match act
    case Close => p.(open := false)
    case Lose(n) => p.(wire := p.wire[..n], lost := p.wire[n..] + p.lost)
    case Arrive => p.(reader := Take(p.reader, p.wire[0]), wire := p.wire[1..])
    case ReadDone => Handled(p)
    case ClientPoll => Polled(p)
    case ClientKey(e) => p.(editor := Process(p.editor, e))
  }

  ghost predicate Enabled(s: Sys, step: Step)
    requires SysValid(s)
  {
    match step
    case HostKey(e) =>
      Producible(e) && Framable(Process(s.host, e).gap.Content())
    case RunPost => s.host.posts != []
    case Join(editor) =>
      EditorModel.Inv(editor) && editor.mode == Client && editor.gap.Content() == []
    case Own(i, act) => i < |s.peers| && Can(s.peers[i], act)
  }

  /** What the steps need to be defined at all. */
  ghost predicate SysValid(s: Sys) {
    && EditorModel.Inv(s.host) && |s.history| > 0
    && AllListed(s.listed, |s.peers|)
    && forall i :: 0 <= i < |s.peers| ==> EditorModel.Inv(s.peers[i].editor) && s.peers[i].reader.Valid()
  }

  function Change(s: Sys, i: nat, p: Peer): Sys
    requires i < |s.peers|
  {
    s.(peers := s.peers[i := p])
  }

  ghost function Apply(s: Sys, step: Step): Sys
    requires SysValid(s) && Enabled(s, step)
  {
    match step
    case HostKey(e) =>
      s.(host := Process(s.host, e), keyed := s.keyed || e.key != NoKey)
    case RunPost =>
      Broadcast(s.(host := s.host.(posts := s.host.posts[1..])), s.host.posts[0])
    case Join(editor) =>
      s.(peers := s.peers + [NewPeer(s, editor)], listed := s.listed + [|s.peers|])
    case Own(i, act) => Change(s, i, Acted(s.peers[i], act))
  }

  // ---- runs ----

  ghost predicate Next(s: Sys, s': Sys) {
    SysValid(s) && exists step :: Enabled(s, step) && s' == Apply(s, step)
  }

  /** A host that has opened a file and started to listen. */
  ghost predicate Initial(s: Sys) {
    && EditorModel.Inv(s.host) && s.host.mode == Host && s.host.posts == []
    && s.latest == [] && s.listed == [] && s.peers == [] && s.history == [[]] && !s.keyed
  }

  /** The `i`-th state of a run comes from the one before it. */
  ghost predicate Follows(b: seq<Sys>, i: nat)
    requires 0 < i < |b|
  {
    Next(b[i - 1], b[i])
  }

  ghost predicate Behaviour(b: seq<Sys>) {
    |b| > 0 && Initial(b[0]) && forall i: nat :: 0 < i < |b| ==> Follows(b, i)
  }

  // ---- the server's loop and the step ----

  /** The list as the server holds it. */
  ghost function SessionsOf(listed: seq<nat>, peers: seq<Peer>): (ss: seq<Session>)
    requires AllListed(listed, |peers|)
    ensures |ss| == |listed|
  {
    if listed == [] then []
    else
      var n := |listed| - 1;
      SessionsOf(listed[..n], peers) + [Session(peers[listed[n]].open, Stream(peers[listed[n]].frames))]
  }

  /** The step does to the sessions on the list what the loop of the server does. */
  lemma {:induction false} BroadcastIsTheLoop(listed: seq<nat>, peers: seq<Peer>, peers': seq<Peer>, data: Text)
    requires AllListed(listed, |peers|) && |peers'| == |peers|
    requires forall i <- listed :: peers'[i] == if peers[i].open then SendFrame(peers[i], data) else peers[i]
    ensures AllListed(StillOpen(listed, peers), |peers'|)
    ensures SessionsOf(StillOpen(listed, peers), peers') == Reached(SessionsOf(listed, peers), data)
  {
    if listed != [] {
      var n := |listed| - 1;
      BroadcastIsTheLoop(listed[..n], peers, peers', data);
      var i := listed[n];
      var ss := SessionsOf(listed, peers);
      assert ss[..n] == SessionsOf(listed[..n], peers);
      var kept := StillOpen(listed[..n], peers);
      if peers[i].open {
        StreamAppends(peers[i].frames, data);
        assert (kept + [i])[..|kept|] == kept;
      }
    }
  }

  /** The step that runs a post. */
  lemma RunPostIsTheLoop(s: Sys)
    requires SysValid(s) && Enabled(s, RunPost)
    ensures var r := Apply(s, RunPost);
            && AllListed(r.listed, |r.peers|) && r.latest == s.host.posts[0]
            && SessionsOf(r.listed, r.peers) == Reached(SessionsOf(s.listed, s.peers), r.latest)
            && forall i :: i in r.listed <==> i in s.listed && s.peers[i].open
  {
    var r := Apply(s, RunPost);
    BroadcastIsTheLoop(s.listed, s.peers, r.peers, r.latest);
  }

  lemma {:induction false} SessionsOfMore(listed: seq<nat>, peers: seq<Peer>, p: Peer)
    requires AllListed(listed, |peers|)
    ensures SessionsOf(listed, peers + [p]) == SessionsOf(listed, peers)
  {
    if listed != [] {
      SessionsOfMore(listed[..|listed| - 1], peers, p);
    }
  }

  /** The step that lets a client in does to the list what the server's handler does. */
  lemma JoinIsAccept(s: Sys, editor: State)
    requires SysValid(s) && Enabled(s, Join(editor))
    ensures var r := Apply(s, Join(editor));
            && AllListed(r.listed, |r.peers|)
            && SessionsOf(r.listed, r.peers) == Accepted(SessionsOf(s.listed, s.peers), s.latest)
    ensures var n := |s.peers|; var p := Apply(s, Join(editor)).peers[n];
            && n in Apply(s, Join(editor)).listed && p.open && p.wire == Stream(p.frames)
            && p.frames == (if s.latest == [] then [] else [s.latest]) && !p.newData && p.reader.Idle()
  {
    var p := NewPeer(s, editor);
    SessionsOfMore(s.listed, s.peers, p);
    assert (s.listed + [|s.peers|])[..|s.listed|] == s.listed;
    assert Stream(p.frames) == p.wire by {
      if s.latest != [] {
        assert Stream([s.latest]) == Packet(s.latest) + Stream([s.latest][1..]);
      }
    }
  }

  // ---- the client's receiver and the steps ----

  /** The receiver of a client, as the class in Network.dfy has it. */
  function InboxOf(p: Peer): Inbox {
    Inbox(p.reader, p.mailbox, p.newData)
  }

  /** A completed read and a poll do to the receiver and the editor what the methods do. */
  lemma StepsAreTheMethods(p: Peer)
    requires EditorModel.Inv(p.editor) && p.reader.Valid()
    ensures p.reader.Ready() ==> InboxOf(Handled(p)) == Received(InboxOf(p)) && Handled(p).editor == p.editor
    ensures InboxOf(Polled(p)) == Emptied(InboxOf(p)) && Polled(p).editor == Poll(p.editor, InboxOf(p).mailbox)
  {
  }
}
