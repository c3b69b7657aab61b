/** What every run of host, server and clients keeps, and what it comes to rest in. */
module Agreement {
  import opened Bytes
  import opened GapModel
  import opened Wire
  import opened EditorModel
  import opened Replication

  function Last(xs: seq<Text>): Text {
    if xs == [] then [] else xs[|xs| - 1]
  }

  /** `xs` is `ys` with some elements left out. */
  ghost predicate Subsequence(xs: seq<Text>, ys: seq<Text>)
    decreases |ys|
  {
    if xs == [] then true
    else if ys == [] then false
    else
      var m, n := |xs| - 1, |ys| - 1;
      (xs[m] == ys[n] && Subsequence(xs[..m], ys[..n])) || Subsequence(xs, ys[..n])
  }

  lemma SubsequenceSkips(xs: seq<Text>, ys: seq<Text>, y: Text)
    requires Subsequence(xs, ys)
    ensures Subsequence(xs, ys + [y])
  {
    assert (ys + [y])[..|ys|] == ys;
  }

  lemma SubsequenceTakes(xs: seq<Text>, ys: seq<Text>, y: Text)
    requires Subsequence(xs, ys)
    ensures Subsequence(xs + [y], ys + [y])
  {
    assert (ys + [y])[..|ys|] == ys && (xs + [y])[..|xs|] == xs;
  }

  lemma {:induction false} SubsequenceExtends(xs: seq<Text>, ys: seq<Text>, zs: seq<Text>)
    requires Subsequence(xs, ys)
    ensures Subsequence(xs, ys + zs)
    decreases |zs|
  {
    if zs == [] {
      assert ys + zs == ys;
    } else {
      var n := |zs| - 1;
      SubsequenceExtends(xs, ys, zs[..n]);
      SubsequenceSkips(xs, ys + zs[..n], zs[n]);
      assert ys + zs[..n] + [zs[n]] == ys + zs;
    }
  }

  lemma {:induction false} SubsequenceMember(xs: seq<Text>, ys: seq<Text>, x: Text)
    requires Subsequence(xs, ys) && x in xs
    ensures x in ys
    decreases |ys|
  {
    var m, n := |xs| - 1, |ys| - 1;
    assert xs == xs[..m] + [xs[m]] && ys == ys[..n] + [ys[n]];
    if xs[m] == ys[n] && Subsequence(xs[..m], ys[..n]) {
      if x != xs[m] {
        SubsequenceMember(xs[..m], ys[..n], x);
      }
    } else {
      SubsequenceMember(xs, ys[..n], x);
    }
  }

  // ---- one client ----

  /** Where in the history the frames of a client begin: at the text it joined on, unless that was empty. */
  function First(h: seq<Text>, joined: nat): nat
    requires joined < |h|
  {
    if h[joined] == [] then joined + 1 else joined
  }

  /** The frames sent to a client are a contiguous stretch of the history, and reach its end while open. */
  ghost predicate Stretch(p: Peer, h: seq<Text>) {
    && p.joined < |h|
    && var f := First(h, p.joined);
    && f + |p.frames| <= |h| && p.frames == h[f..f + |p.frames|]
    && (p.open ==> f + |p.frames| == |h|)
  }

  /** The bytes under way and the receiver hold exactly the frames not yet delivered. */
  ghost predicate InTransit(p: Peer) {
    && |p.delivered| <= |p.frames| && p.delivered == p.frames[..|p.delivered|]
    && Spells(p.reader, p.wire + p.lost, p.frames[|p.delivered|..])
    && (p.open ==> p.lost == [])
  }

  /** The mailbox holds the last delivery, and the editor's text is the last one it took. */
  ghost predicate Shown(p: Peer) {
    && EditorModel.Inv(p.editor) && p.editor.mode == Client
    && p.mailbox == Last(p.delivered) && (p.newData ==> p.delivered != [])
    && p.editor.gap.Content() == Last(p.adopted)
    && (!p.newData ==> p.editor.gap.Content() == p.mailbox)
    && Subsequence(p.adopted, if p.newData then p.delivered[..|p.delivered| - 1] else p.delivered)
  }

  ghost predicate PeerInv(p: Peer, h: seq<Text>) {
    Stretch(p, h) && InTransit(p) && Shown(p)
  }

  lemma JoinKeeps(s: Sys, editor: State)
    requires |s.history| > 0 && AllFramable(s.history) && s.latest == Last(s.history)
    requires EditorModel.Inv(editor) && editor.mode == Client && editor.gap.Content() == []
    ensures PeerInv(NewPeer(s, editor), s.history)
  {
    var p := NewPeer(s, editor);
    if s.latest == [] {
      assert p.frames == s.history[|s.history|..];
      assert Pending(p.reader) + (p.wire + p.lost) == Stream([]);
    } else {
      assert p.frames == s.history[|s.history| - 1..];
      assert Stream([s.latest]) == Packet(s.latest) + Stream([s.latest][1..]);
      assert Pending(p.reader) + (p.wire + p.lost) == Stream(p.frames);
    }
    assert p.frames[0..] == p.frames && p.frames[..0] == [];
  }

  lemma SendStretches(p: Peer, h: seq<Text>, data: Text)
    requires Stretch(p, h) && p.open
    ensures Stretch(SendFrame(p, data), h + [data])
  {
    var f := First(h, p.joined);
    assert First(h + [data], p.joined) == f;
    assert (h + [data])[f..|h| + 1] == h[f..] + [data];
  }

  lemma SendTransits(p: Peer, data: Text)
    requires InTransit(p) && p.open && Framable(data)
    ensures InTransit(SendFrame(p, data))
  {
    var q := SendFrame(p, data);
    var left := p.frames[|p.delivered|..];
    assert q.frames[|q.delivered|..] == left + [data];
    assert q.frames[..|q.delivered|] == p.frames[..|p.delivered|];
    StreamAppends(left, data);
    assert q.wire + q.lost == (p.wire + p.lost) + Packet(data);
    Associate(Pending(p.reader), p.wire + p.lost, Packet(data));
  }

  /** A broadcast, for a client that is sent the text. */
  lemma SendKeeps(p: Peer, h: seq<Text>, data: Text)
    requires PeerInv(p, h) && p.open && Framable(data)
    ensures PeerInv(SendFrame(p, data), h + [data])
  {
    SendStretches(p, h, data);
    SendTransits(p, data);
    assert Shown(SendFrame(p, data));
  }

  lemma ClosedStretches(p: Peer, h: seq<Text>, data: Text)
    requires Stretch(p, h) && !p.open
    ensures Stretch(p, h + [data])
  {
    var f := First(h, p.joined);
    assert First(h + [data], p.joined) == f;
    assert (h + [data])[f..f + |p.frames|] == h[f..f + |p.frames|];
  }

  /** A broadcast, for a client whose connection is closed. */
  lemma ClosedKeeps(p: Peer, h: seq<Text>, data: Text)
    requires PeerInv(p, h) && !p.open
    ensures PeerInv(p, h + [data])
  {
    ClosedStretches(p, h, data);
  }

  lemma CloseKeeps(p: Peer, h: seq<Text>)
    requires PeerInv(p, h)
    ensures PeerInv(p.(open := false), h)
  {
  }

  lemma LoseKeeps(p: Peer, h: seq<Text>, n: nat)
    requires PeerInv(p, h) && !p.open && n <= |p.wire|
    ensures PeerInv(p.(wire := p.wire[..n], lost := p.wire[n..] + p.lost), h)
  {
    assert p.wire[..n] + (p.wire[n..] + p.lost) == p.wire + p.lost;
  }

  lemma ArriveKeeps(p: Peer, h: seq<Text>)
    requires PeerInv(p, h) && p.wire != [] && !p.reader.Ready()
    ensures PeerInv(p.(reader := Take(p.reader, p.wire[0]), wire := p.wire[1..]), h)
  {
    TakeSpells(p.reader, p.wire + p.lost, p.frames[|p.delivered|..]);
    assert (p.wire + p.lost)[0] == p.wire[0] && (p.wire + p.lost)[1..] == p.wire[1..] + p.lost;
  }

  lemma ReadTransits(p: Peer)
    requires InTransit(p) && p.reader.Ready()
    ensures var q := Handled(p);
            && InTransit(q) && q.frames == p.frames && q.joined == p.joined && q.open == p.open
            && q.delivered == if p.reader.ReadingHeader? then p.delivered else p.delivered + [q.mailbox]
  {
    var left := p.frames[|p.delivered|..];
    if p.reader.ReadingHeader? {
      HeaderSpells(p.reader, p.wire + p.lost, left);
    } else {
      BodySpells(p.reader, p.wire + p.lost, left);
      var q := Handled(p);
      assert left[1..] == p.frames[|q.delivered|..];
      assert q.delivered == p.frames[..|q.delivered|];
    }
  }

  /** The older deliveries of the mailbox still contain what was adopted. */
  lemma MissedOnes(p: Peer)
    requires Shown(p)
    ensures Subsequence(p.adopted, p.delivered)
  {
    if p.newData {
      var m := |p.delivered| - 1;
      SubsequenceSkips(p.adopted, p.delivered[..m], p.delivered[m]);
      assert p.delivered == p.delivered[..m] + [p.delivered[m]];
    }
  }

  lemma ReadShows(p: Peer)
    requires InTransit(p) && Shown(p) && p.reader.Ready()
    ensures Shown(Handled(p))
  {
    ReadTransits(p);
    var q := Handled(p);
    if p.reader.ReadingHeader? {
      assert q == p.(reader := q.reader);
    } else {
      MissedOnes(p);
      assert q.delivered[..|q.delivered| - 1] == p.delivered;
      assert q.editor == p.editor && q.adopted == p.adopted && q.newData;
    }
  }

  lemma SameStretch(p: Peer, q: Peer, h: seq<Text>)
    requires Stretch(p, h) && q.frames == p.frames && q.joined == p.joined && q.open == p.open
    ensures Stretch(q, h)
  {
  }

  /** A complete read: nothing is published for a header, the next frame for a body. */
  lemma ReadKeeps(p: Peer, h: seq<Text>)
    requires PeerInv(p, h) && p.reader.Ready()
    ensures PeerInv(Handled(p), h)
  {
    ReadTransits(p);
    ReadShows(p);
    SameStretch(p, Handled(p), h);
  }

  lemma PollKeeps(p: Peer, h: seq<Text>)
    requires PeerInv(p, h) && p.newData
    ensures PeerInv(Polled(p), h)
  {
    assert p.delivered == p.delivered[..|p.delivered| - 1] + [p.mailbox];
    SubsequenceTakes(p.adopted, p.delivered[..|p.delivered| - 1], p.mailbox);
  }

  lemma SameTextKeeps(p: Peer, q: Peer, h: seq<Text>)
    requires PeerInv(p, h) && q == p.(editor := q.editor)
    requires EditorModel.Inv(q.editor) && q.editor.mode == Client
    requires q.editor.gap.Content() == p.editor.gap.Content()
    ensures PeerInv(q, h)
  {
  }

  lemma KeyKeeps(p: Peer, h: seq<Text>, e: Event)
    requires PeerInv(p, h) && Producible(e)
    ensures PeerInv(p.(editor := Process(p.editor, e)), h)
  {
    ClientKeepsText(p.editor, e);
    SameModeStep(p.editor, Press(e));
    SameTextKeeps(p, p.(editor := Process(p.editor, e)), h);
  }

  // ---- the whole system ----

  ghost predicate AllPeers(s: Sys) {
    forall i :: 0 <= i < |s.peers| ==> PeerInv(s.peers[i], s.history)
  }

  /** The list has every open session once, oldest first. */
  ghost predicate ListInv(s: Sys) {
    && AllListed(s.listed, |s.peers|)
    && (forall i :: 0 <= i < |s.peers| && s.peers[i].open ==> i in s.listed)
    && forall i, j :: 0 <= i < j < |s.listed| ==> s.listed[i] < s.listed[j]
  }

  /** The host's text is on its way: it is the last one posted, or already the latest. */
  ghost predicate HostInv(s: Sys) {
    && EditorModel.Inv(s.host) && s.host.mode == Host
    && |s.history| > 0 && s.history[0] == [] && s.latest == Last(s.history)
    && AllFramable(s.history) && AllFramable(s.host.posts)
    && (if s.keyed
        then s.host.gap.Content() == if s.host.posts == [] then s.latest else Last(s.host.posts)
        else s.host.posts == [] && s.latest == [])
  }

  ghost predicate SysInv(s: Sys) {
    HostInv(s) && ListInv(s) && AllPeers(s)
  }

  lemma HostKeyKeeps(s: Sys, e: Event)
    requires SysInv(s) && SysValid(s) && Enabled(s, HostKey(e))
    ensures SysInv(Apply(s, HostKey(e)))
  {
    HostPosts(s.host, e);
    SameModeStep(s.host, Press(e));
  }

  lemma BroadcastPeers(s: Sys, data: Text)
    requires ListInv(s) && AllPeers(s) && Framable(data)
    ensures AllPeers(Broadcast(s, data))
  {
    var r := Broadcast(s, data);
    forall i | 0 <= i < |r.peers|
      ensures PeerInv(r.peers[i], r.history)
    {
      var p := s.peers[i];
      assert PeerInv(p, s.history);
      if p.open {
        SendKeeps(p, s.history, data);
      } else {
        ClosedKeeps(p, s.history, data);
      }
    }
  }

  lemma {:induction false} StillOpenOrdered(listed: seq<nat>, peers: seq<Peer>)
    requires AllListed(listed, |peers|)
    requires forall i, j :: 0 <= i < j < |listed| ==> listed[i] < listed[j]
    ensures var r := StillOpen(listed, peers);
            AllListed(r, |peers|) && forall i, j :: 0 <= i < j < |r| ==> r[i] < r[j]
  {
    if listed != [] {
      var n := |listed| - 1;
      StillOpenOrdered(listed[..n], peers);
      var r := StillOpen(listed[..n], peers);
      forall i | 0 <= i < |r|
        ensures r[i] < listed[n]
      {
        assert r[i] in listed[..n];
      }
    }
  }

  lemma BroadcastKeeps(s: Sys, data: Text)
    requires ListInv(s) && AllPeers(s) && Framable(data)
    ensures ListInv(Broadcast(s, data)) && AllPeers(Broadcast(s, data))
  {
    StillOpenOrdered(s.listed, s.peers);
    BroadcastPeers(s, data);
  }

  lemma PostLeaves(s: Sys, r: Sys)
    requires HostInv(s) && s.host.posts != [] && r.host == s.host.(posts := s.host.posts[1..])
    requires r.latest == s.host.posts[0] && r.history == s.history + [r.latest] && r.keyed == s.keyed
    ensures HostInv(r)
  {
    var posts := s.host.posts;
    assert posts[1..] != [] ==> Last(posts[1..]) == Last(posts);
  }

  lemma RunPostKeeps(s: Sys)
    requires SysInv(s) && SysValid(s) && Enabled(s, RunPost)
    ensures SysInv(Apply(s, RunPost))
  {
    var s0, data := s.(host := s.host.(posts := s.host.posts[1..])), s.host.posts[0];
    assert ListInv(s0) && AllPeers(s0);
    BroadcastKeeps(s0, data);
    PostLeaves(s, Broadcast(s0, data));
  }

  lemma JoinStepKeeps(s: Sys, editor: State)
    requires SysInv(s) && SysValid(s) && Enabled(s, Join(editor))
    ensures SysInv(Apply(s, Join(editor)))
  {
    JoinKeeps(s, editor);
    JoinLists(s, NewPeer(s, editor));
  }

  lemma JoinLists(s: Sys, p: Peer)
    requires SysInv(s) && PeerInv(p, s.history)
    ensures SysInv(s.(peers := s.peers + [p], listed := s.listed + [|s.peers|]))
  {
    var r := s.(peers := s.peers + [p], listed := s.listed + [|s.peers|]);
    assert HostInv(r);
    assert AllPeers(r);
    ListGrows(s.listed, s.peers, p);
    assert ListInv(r);
  }

  lemma ListGrows(listed: seq<nat>, peers: seq<Peer>, p: Peer)
    requires AllListed(listed, |peers|)
    requires forall i :: 0 <= i < |peers| && peers[i].open ==> i in listed
    requires forall i, j :: 0 <= i < j < |listed| ==> listed[i] < listed[j]
    ensures var l, ps := listed + [|peers|], peers + [p];
            && AllListed(l, |ps|)
            && (forall i :: 0 <= i < |ps| && ps[i].open ==> i in l)
            && forall i, j :: 0 <= i < j < |l| ==> l[i] < l[j]
  {
  }

  /** A change of one client, with its invariant known. */
  lemma ChangeKeeps(s: Sys, i: nat, p: Peer)
    requires SysInv(s) && i < |s.peers| && PeerInv(p, s.history) && (p.open ==> s.peers[i].open)
    ensures SysInv(Change(s, i, p))
  {
  }

  /** Whatever happens to one client keeps its invariant. */
  lemma ActKeeps(p: Peer, h: seq<Text>, act: Act)
    requires PeerInv(p, h) && Can(p, act)
    ensures PeerInv(Acted(p, act), h)
  {
    match act
    case Close => CloseKeeps(p, h);
    case Lose(n) => LoseKeeps(p, h, n);
    case Arrive => ArriveKeeps(p, h);
    case ReadDone => ReadKeeps(p, h);
    case ClientPoll => PollKeeps(p, h);
    case ClientKey(e) => KeyKeeps(p, h, e);
  }

  lemma OwnKeeps(s: Sys, i: nat, act: Act)
    requires SysInv(s) && SysValid(s) && Enabled(s, Own(i, act))
    ensures SysInv(Apply(s, Own(i, act)))
  {
    var p := s.peers[i];
    assert PeerInv(p, s.history);
    ActKeeps(p, s.history, act);
    ChangeKeeps(s, i, Acted(p, act));
  }

  lemma StepKeeps(s: Sys, step: Step)
    requires SysInv(s) && SysValid(s) && Enabled(s, step)
    ensures SysInv(Apply(s, step))
  {
    match step
    case HostKey(e) => HostKeyKeeps(s, e);
    case RunPost => RunPostKeeps(s);
    case Join(editor) => JoinStepKeeps(s, editor);
    case Own(i, act) => OwnKeeps(s, i, act);
  }

  lemma NextKeeps(s: Sys, s': Sys)
    requires SysInv(s) && Next(s, s')
    ensures SysInv(s')
  {
    var step :| Enabled(s, step) && s' == Apply(s, step);
    StepKeeps(s, step);
  }

  lemma InitialHolds(s: Sys)
    requires Initial(s)
    ensures SysInv(s)
  {
  }

  /** Every state of every run. */
  lemma {:induction false} Reachable(b: seq<Sys>, n: nat)
    requires Behaviour(b) && n < |b|
    ensures SysInv(b[n])
  {
    if n == 0 {
      InitialHolds(b[0]);
    } else {
      Reachable(b, n - 1);
      assert Follows(b, n);
      NextKeeps(b[n - 1], b[n]);
    }
  }

  // ---- what it means ----

  /** What every reachable state needs for the steps to be defined. */
  lemma InvIsValid(s: Sys)
    requires SysInv(s)
    ensures SysValid(s)
  {
    forall i | 0 <= i < |s.peers|
      ensures EditorModel.Inv(s.peers[i].editor) && s.peers[i].reader.Valid()
    {
      assert PeerInv(s.peers[i], s.history);
    }
  }

  /** The steps that bring the host's text to client `i`. */
  predicate Inward(step: Step, i: nat) {
    step == RunPost || step == Own(i, Arrive) || step == Own(i, ReadDone) || step == Own(i, ClientPoll)
  }

  /** None of them can happen. */
  ghost predicate Quiet(s: Sys, i: nat)
    requires SysValid(s) && i < |s.peers|
  {
    s.peers[i].open && forall step :: Inward(step, i) ==> !Enabled(s, step)
  }

  /** An open client has been sent the latest text, or was empty with it from the start. */
  lemma LastFrame(p: Peer, h: seq<Text>)
    requires Stretch(p, h) && p.open
    ensures Last(p.frames) == Last(h)
  {
    var f := First(h, p.joined);
    if p.frames != [] {
      assert p.frames[|p.frames| - 1] == h[f + |p.frames| - 1];
    }
  }

  /** A receiver that waits with no byte under way is between frames: it cannot be stuck inside one. */
  lemma NeverStuck(p: Peer)
    requires InTransit(p) && p.open && p.wire == [] && !p.reader.Ready()
    ensures p.reader.Idle() && p.delivered == p.frames
  {
    var left := p.frames[|p.delivered|..];
    assert p.wire + p.lost == [];
    if left != [] {
      assert |Pending(p.reader) + []| >= |Packet(left[0])|;
      WaitingIsShort(p.reader, [], left);
    }
  }

  lemma QuietMeans(s: Sys, i: nat)
    requires SysValid(s) && i < |s.peers| && Quiet(s, i)
    ensures var p := s.peers[i];
            s.host.posts == [] && p.open && !p.newData && !p.reader.Ready() && p.wire == []
  {
    assert Inward(RunPost, i) && Inward(Own(i, Arrive), i) && Inward(Own(i, ReadDone), i)
           && Inward(Own(i, ClientPoll), i);
  }

  /** A client with nothing under way shows the latest text, and its host's once a key was pressed there. */
  lemma QuietAgrees(s: Sys, i: nat)
    requires SysInv(s) && SysValid(s) && i < |s.peers| && Quiet(s, i)
    ensures var shown := s.peers[i].editor.gap.Content(); var text := s.host.gap.Content();
            && shown == s.latest
            && (shown == text <==> s.keyed || text == [])
  {
    var p := s.peers[i];
    assert PeerInv(p, s.history);
    QuietMeans(s, i);
    NeverStuck(p);
    LastFrame(p, s.history);
  }

  /**
   * Quiescent agreement: in every reachable state in which no step can bring
   * anything to a client, the client shows the server's latest text, and it shows
   * the host's text exactly when the host has processed a key or has an empty
   * text.
   */
  lemma QuiescentAgreement(b: seq<Sys>, n: nat, i: nat)
    requires Behaviour(b) && n < |b| && i < |b[n].peers|
    ensures SysInv(b[n]) && SysValid(b[n])
    ensures var s := b[n]; var shown := s.peers[i].editor.gap.Content(); var text := s.host.gap.Content();
            Quiet(s, i) ==> shown == s.latest && (shown == text <==> s.keyed || text == [])
  {
    Reachable(b, n);
    InvIsValid(b[n]);
    if Quiet(b[n], i) {
      QuietAgrees(b[n], i);
    }
  }

  // ---- getting there ----

  function Effort(r: Reader): nat {
    if !r.Ready() then 0 else if r.ReadingHeader? then 3 else 2
  }

  function PeerWork(p: Peer): nat {
    4 * |p.wire| + Effort(p.reader) + if p.newData then 1 else 0
  }

  /** How much the steps towards client `i` have left to do. */
  ghost function Work(s: Sys, i: nat): nat
    requires i < |s.peers|
  {
    |s.host.posts| + 4 * |Stream(s.host.posts)| + PeerWork(s.peers[i])
  }

  lemma RunPostWorks(s: Sys, i: nat)
    requires SysInv(s) && SysValid(s) && i < |s.peers| && s.peers[i].open && Enabled(s, RunPost)
    ensures Work(Apply(s, RunPost), i) < Work(s, i)
  {
    var posts := s.host.posts;
    assert Stream(posts) == Packet(posts[0]) + Stream(posts[1..]);
    assert Apply(s, RunPost).peers[i] == SendFrame(s.peers[i], posts[0]);
  }

  lemma ActWorks(p: Peer, act: Act)
    requires EditorModel.Inv(p.editor) && p.reader.Valid() && Can(p, act)
    requires act == Arrive || act == ReadDone || act == ClientPoll
    ensures PeerWork(Acted(p, act)) < PeerWork(p)
  {
  }

  /** Each of these steps leaves less to do, and leaves the host's text alone. */
  lemma InwardWorks(s: Sys, step: Step, i: nat)
    requires SysInv(s) && SysValid(s) && i < |s.peers| && s.peers[i].open
    requires Inward(step, i) && Enabled(s, step)
    ensures var r := Apply(s, step);
            && |r.peers| == |s.peers| && r.peers[i].open && Work(r, i) < Work(s, i)
            && r.host.gap == s.host.gap && r.keyed == s.keyed
  {
    if step == RunPost {
      RunPostWorks(s, i);
    } else {
      ActWorks(s.peers[i], step.act);
    }
  }

  ghost predicate InwardNext(s: Sys, s': Sys, i: nat) {
    SysValid(s) && exists step :: Inward(step, i) && Enabled(s, step) && s' == Apply(s, step)
  }

  lemma InwardNextWorks(s: Sys, s': Sys, i: nat)
    requires SysInv(s) && i < |s.peers| && s.peers[i].open && InwardNext(s, s', i)
    ensures i < |s'.peers| && Work(s', i) < Work(s, i)
  {
    var step :| Inward(step, i) && Enabled(s, step) && s' == Apply(s, step);
    InwardWorks(s, step, i);
  }

  /** Any step at all, but no key at the host and no end of client `i`'s connection. */
  predicate Calm(step: Step, i: nat) {
    !step.HostKey? && step != Own(i, Close)
  }

  /** The other clients, a new one, and the client's own keys leave it all as it is. */
  lemma CalmWorks(s: Sys, step: Step, i: nat)
    requires SysInv(s) && SysValid(s) && i < |s.peers| && s.peers[i].open
    requires Calm(step, i) && Enabled(s, step)
    ensures var r := Apply(s, step);
            && i < |r.peers| && r.peers[i].open && Work(r, i) <= Work(s, i)
            && r.host.gap == s.host.gap && r.keyed == s.keyed
  {
    if Inward(step, i) {
      InwardWorks(s, step, i);
    }
  }

  ghost predicate CalmNext(s: Sys, s': Sys, i: nat) {
    SysValid(s) && exists step :: Calm(step, i) && Enabled(s, step) && s' == Apply(s, step)
  }

  lemma CalmNextWorks(s: Sys, s': Sys, i: nat)
    requires SysInv(s) && i < |s.peers| && s.peers[i].open && CalmNext(s, s', i)
    ensures SysInv(s') && i < |s'.peers| && s'.peers[i].open && Work(s', i) <= Work(s, i)
    ensures s'.host.gap == s.host.gap && s'.keyed == s.keyed
  {
    var step :| Calm(step, i) && Enabled(s, step) && s' == Apply(s, step);
    StepKeeps(s, step);
    CalmWorks(s, step, i);
  }

  ghost predicate CalmFollows(b: seq<Sys>, n: nat, i: nat)
    requires 0 < n < |b|
  {
    CalmNext(b[n - 1], b[n], i)
  }

  /** A stretch of a run made of such steps. */
  ghost predicate Settling(b: seq<Sys>, i: nat) {
    |b| > 0 && forall n: nat :: 0 < n < |b| ==> CalmFollows(b, n, i)
  }

  /** How many of the steps were taken towards client `i`. */
  ghost function Inwards(b: seq<Sys>, i: nat): nat {
    if |b| <= 1 then 0 else (if InwardNext(b[0], b[1], i) then 1 else 0) + Inwards(b[1..], i)
  }

  /** The rest of such a stretch, after its first step. */
  lemma SettlingOn(b: seq<Sys>, i: nat) returns (rest: seq<Sys>)
    requires Settling(b, i) && |b| > 1
    ensures rest == b[1..] && Settling(rest, i) && rest[0] == b[1] && rest[|rest| - 1] == b[|b| - 1]
    ensures CalmNext(b[0], b[1], i)
  {
    rest := b[1..];
    assert CalmFollows(b, 1, i);
    forall n: nat | 0 < n < |rest|
      ensures CalmFollows(rest, n, i)
    {
      assert CalmFollows(b, n + 1, i);
    }
  }

  /** If nothing more can come to the client in `r`, it shows the text the host had in `s`. */
  ghost predicate CaughtUp(s: Sys, r: Sys, i: nat) {
    && i < |r.peers| && SysValid(r) && s.host.gap.Valid()
    && (Quiet(r, i) && s.keyed ==> r.peers[i].editor.gap.Content() == s.host.gap.Content())
  }

  lemma NothingToCome(s: Sys, i: nat)
    requires SysInv(s) && i < |s.peers|
    ensures CaughtUp(s, s, i)
  {
    InvIsValid(s);
    if Quiet(s, i) {
      QuietAgrees(s, i);
    }
  }

  /**
   * A client catches up: from any reachable state, as long as no key is pressed at
   * the host and the connection stays open, no more than `Work` steps towards the
   * client can happen, whatever else happens between them; and when none can
   * happen any more, it shows the text the host has had all along, if a key was
   * pressed there.
   */
  lemma {:induction false} CatchesUp(b: seq<Sys>, i: nat)
    requires Settling(b, i) && SysInv(b[0]) && i < |b[0].peers| && b[0].peers[i].open
    ensures Inwards(b, i) <= Work(b[0], i)
    ensures CaughtUp(b[0], b[|b| - 1], i)
    decreases |b|
  {
    if |b| == 1 {
      NothingToCome(b[0], i);
    } else {
      var rest := SettlingOn(b, i);
      CalmNextWorks(b[0], b[1], i);
      if InwardNext(b[0], b[1], i) {
        InwardNextWorks(b[0], b[1], i);
      }
      CatchesUp(rest, i);
    }
  }

  // ---- what a client has shown ----

  /**
   * Safety: what a client was sent is a contiguous stretch of the history from
   * the text in force when it joined; what its receiver published is a prefix of
   * that; what its editor adopted is a subsequence of it; and what it shows was
   * in force at some time.
   */
  lemma OnlyHistory(b: seq<Sys>, n: nat, i: nat)
    requires Behaviour(b) && n < |b| && i < |b[n].peers|
    ensures SysInv(b[n]) && PeerInv(b[n].peers[i], b[n].history)
    ensures var p, h := b[n].peers[i], b[n].history;
            && Stretch(p, h)
            && p.delivered <= p.frames
            && Subsequence(p.adopted, p.delivered) && Subsequence(p.adopted, p.frames)
            && p.editor.gap.Content() == Last(p.adopted)
            && p.editor.gap.Content() in h
  {
    Reachable(b, n);
    var p, h := b[n].peers[i], b[n].history;
    assert PeerInv(p, h);
    MissedOnes(p);
    SubsequenceExtends(p.adopted, p.delivered, p.frames[|p.delivered|..]);
    assert p.delivered + p.frames[|p.delivered|..] == p.frames;
    if p.adopted == [] {
      assert h[0] == [];
    } else {
      SubsequenceMember(p.adopted, p.delivered, Last(p.adopted));
      assert Last(p.adopted) in p.frames;
    }
  }

  /** `b` is `a` with possibly more at the end of its histories. */
  ghost predicate Grown(a: Peer, b: Peer) {
    a.adopted <= b.adopted && a.frames <= b.frames && a.delivered <= b.delivered
  }

  /** Client `i` of `a` and what has become of it in `b`. */
  ghost predicate Since(a: Sys, b: Sys, i: nat) {
    i < |a.peers| && i < |b.peers| && a.history <= b.history && Grown(a.peers[i], b.peers[i])
  }

  lemma SinceThen(a: Sys, b: Sys, c: Sys, i: nat)
    requires Since(a, b, i) && Since(b, c, i)
    ensures Since(a, c, i)
  {
  }

  lemma ActGrows(p: Peer, act: Act)
    requires EditorModel.Inv(p.editor) && p.reader.Valid() && Can(p, act)
    ensures Grown(p, Acted(p, act))
  {
  }

  /** One step only adds to the histories. */
  lemma StepGrows(s: Sys, step: Step, k: nat)
    requires SysValid(s) && Enabled(s, step) && k < |s.peers|
    ensures Since(s, Apply(s, step), k)
  {
    if step.Own? {
      ActGrows(s.peers[step.i], step.act);
    }
  }

  lemma NextGrows(s: Sys, s': Sys, i: nat)
    requires Next(s, s') && i < |s.peers|
    ensures Since(s, s', i)
  {
    var step :| Enabled(s, step) && s' == Apply(s, step);
    StepGrows(s, step, i);
  }

  lemma NoTime(s: Sys, i: nat)
    requires i < |s.peers|
    ensures Since(s, s, i)
  {
  }

  /** A run only adds to the histories. */
  lemma {:induction false} OnlyGrows(b: seq<Sys>, m: nat, n: nat, i: nat)
    requires Behaviour(b) && m <= n < |b| && i < |b[m].peers|
    ensures Since(b[m], b[n], i)
  {
    if m == n {
      NoTime(b[m], i);
    } else {
      OnlyGrows(b, m, n - 1, i);
      assert Follows(b, n);
      NextGrows(b[n - 1], b[n], i);
      SinceThen(b[m], b[n - 1], b[n], i);
    }
  }

  /**
   * The client shows value `k` of the history: the first one, empty as it is, until
   * it adopts a text, and then one that it has been delivered.
   */
  ghost predicate Place(p: Peer, h: seq<Text>, k: nat) {
    && p.joined < |h| && k < |h| && p.editor.gap.Valid() && p.editor.gap.Content() == h[k]
    && if p.adopted == [] then k == 0
       else First(h, p.joined) <= k < First(h, p.joined) + |p.delivered|
  }

  lemma PlaceStays(p: Peer, q: Peer, h: seq<Text>, more: seq<Text>, k: nat)
    requires Place(p, h, k) && q.joined == p.joined && q.adopted == p.adopted
    requires |p.delivered| <= |q.delivered|
    requires q.editor.gap.Valid() && q.editor.gap.Content() == p.editor.gap.Content()
    ensures Place(q, h + more, k)
  {
    assert (h + more)[k] == h[k] && (h + more)[p.joined] == h[p.joined];
  }

  /** The last delivery is that far from the first frame in the history. */
  lemma LastDelivery(delivered: seq<Text>, frames: seq<Text>, h: seq<Text>, f: nat)
    requires delivered != [] && |delivered| <= |frames| && delivered == frames[..|delivered|]
    requires f + |frames| <= |h| && frames == h[f..f + |frames|]
    ensures Last(delivered) == h[f + |delivered| - 1]
  {
    assert delivered[|delivered| - 1] == frames[|delivered| - 1] == h[f + |delivered| - 1];
  }

  /** The last frame delivered is the place of a client that shows it. */
  lemma DeliveredPlace(p: Peer, q: Peer, h: seq<Text>, k: nat) returns (k': nat)
    requires Stretch(p, h) && Place(p, h, k) && p.delivered != []
    requires |p.delivered| <= |p.frames| && p.delivered == p.frames[..|p.delivered|]
    requires q.joined == p.joined && q.delivered == p.delivered && q.adopted != []
    requires q.editor.gap.Valid() && q.editor.gap.Content() == Last(p.delivered)
    ensures k <= k' && Place(q, h, k')
  {
    var f := First(h, p.joined);
    k' := f + |p.delivered| - 1;
    LastDelivery(p.delivered, p.frames, h, f);
  }

  /** A poll takes the last delivery, which is not before anything taken so far. */
  lemma PolledPlace(p: Peer, h: seq<Text>, k: nat) returns (k': nat)
    requires PeerInv(p, h) && p.newData && Place(p, h, k)
    ensures k <= k' && Place(Polled(p), h, k')
  {
    var q := Polled(p);
    k' := DeliveredPlace(p, q, h, k);
  }

  /** What happens to a client takes it only forwards in the history. */
  lemma ActMovesOn(p: Peer, h: seq<Text>, act: Act, k: nat) returns (k': nat)
    requires PeerInv(p, h) && Can(p, act) && Place(p, h, k)
    ensures k <= k' && Place(Acted(p, act), h, k')
  {
    k' := k;
    if act.ClientPoll? {
      k' := PolledPlace(p, h, k);
    } else {
      if act.ClientKey? {
        ClientKeepsText(p.editor, act.e);
      }
      PlaceStays(p, Acted(p, act), h, [], k);
      assert h + [] == h;
    }
  }

  /** So does any step. */
  lemma MovesOn(s: Sys, step: Step, i: nat, k: nat) returns (k': nat)
    requires SysInv(s) && SysValid(s) && Enabled(s, step) && i < |s.peers| && Place(s.peers[i], s.history, k)
    ensures var r := Apply(s, step); i < |r.peers| && k <= k' && Place(r.peers[i], r.history, k')
  {
    var r := Apply(s, step);
    k' := k;
    if step.RunPost? {
      PlaceStays(s.peers[i], r.peers[i], s.history, [r.latest], k);
    } else if step.Own? && step.i == i {
      assert PeerInv(s.peers[i], s.history);
      k' := ActMovesOn(s.peers[i], s.history, step.act, k);
    }
  }

  /** A client that is not there yet is at the first value. */
  ghost predicate PlaceIn(s: Sys, i: nat, k: nat) {
    if i < |s.peers| then Place(s.peers[i], s.history, k) else k == 0
  }

  lemma StepMovesOn(s: Sys, step: Step, i: nat, k: nat) returns (k': nat)
    requires SysInv(s) && SysValid(s) && Enabled(s, step) && PlaceIn(s, i, k)
    ensures k <= k' && PlaceIn(Apply(s, step), i, k')
  {
    if i < |s.peers| {
      k' := MovesOn(s, step, i, k);
    } else {
      k' := 0;
      var r := Apply(s, step);
      if i < |r.peers| {
        assert step.Join? && r.peers[i] == NewPeer(s, step.editor);
      }
    }
  }

  ghost predicate Ascending(f: seq<nat>) {
    forall m, n :: 0 <= m <= n < |f| ==> f[m] <= f[n]
  }

  /** `f` says which value of the history client `i` shows, at each of the first states. */
  ghost predicate Timeline(b: seq<Sys>, i: nat, f: seq<nat>) {
    |f| <= |b| && forall n: nat :: n < |f| ==> PlaceIn(b[n], i, f[n])
  }

  lemma NextMovesOn(s: Sys, s': Sys, i: nat, k: nat) returns (k': nat)
    requires SysInv(s) && Next(s, s') && PlaceIn(s, i, k)
    ensures k <= k' && PlaceIn(s', i, k')
  {
    var step :| Enabled(s, step) && s' == Apply(s, step);
    k' := StepMovesOn(s, step, i, k);
  }

  lemma RunMovesOn(b: seq<Sys>, n: nat, i: nat, k: nat) returns (k': nat)
    requires Behaviour(b) && 0 < n < |b| && PlaceIn(b[n - 1], i, k)
    ensures k <= k' && PlaceIn(b[n], i, k')
  {
    Reachable(b, n - 1);
    assert Follows(b, n);
    k' := NextMovesOn(b[n - 1], b[n], i, k);
  }

  lemma TimelineGrows(b: seq<Sys>, i: nat, f: seq<nat>, k: nat)
    requires |f| < |b| && f != [] && Ascending(f) && Timeline(b, i, f)
    requires f[|f| - 1] <= k && PlaceIn(b[|f|], i, k)
    ensures Ascending(f + [k]) && Timeline(b, i, f + [k])
  {
  }

  lemma {:induction false} TimelineTo(b: seq<Sys>, i: nat, n: nat) returns (f: seq<nat>)
    requires Behaviour(b) && n < |b|
    ensures |f| == n + 1 && Ascending(f) && Timeline(b, i, f)
  {
    if n == 0 {
      f := [0];
    } else {
      var g := TimelineTo(b, i, n - 1);
      assert PlaceIn(b[n - 1], i, g[n - 1]);
      var k := RunMovesOn(b, n, i, g[n - 1]);
      TimelineGrows(b, i, g, k);
      f := g + [k];
    }
  }

  /** At moment `n` client `i`, if it is there, shows `h[k]`, which was in force by then. */
  ghost predicate ShowsAt(b: seq<Sys>, n: nat, i: nat, h: seq<Text>, k: nat)
    requires n < |b|
  {
    i < |b[n].peers| ==>
      k < |b[n].history| <= |h| && b[n].peers[i].editor.gap.Valid() && b[n].peers[i].editor.gap.Content() == h[k]
  }

  /**
   * A client never goes back: over a whole run there is one ascending walk through
   * the history of the latest text, and at every moment the client shows the text
   * the walk has come to.
   */
  lemma NeverBack(b: seq<Sys>, i: nat)
    requires Behaviour(b)
    ensures exists f: seq<nat> :: |f| == |b| && Ascending(f)
              && forall n: nat :: n < |b| ==> ShowsAt(b, n, i, b[|b| - 1].history, f[n])
  {
    var last := |b| - 1;
    var f := TimelineTo(b, i, last);
    forall n: nat | n < |b|
      ensures ShowsAt(b, n, i, b[last].history, f[n])
    {
      assert PlaceIn(b[n], i, f[n]);
      if i < |b[n].peers| {
        OnlyGrows(b, n, last, i);
      }
    }
  }
}
