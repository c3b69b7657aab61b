/**
 * The frames between host and client: a length in four bytes, then that many
 * bytes of text. Both ends are taken to agree on the byte order, here the
 * little-endian one.
 */
module Wire {
  import opened Bytes

  /** The header has 32 bits. */
  const LENGTH_LIMIT := 4294967296

  // ---- frames ----

  /** The length as the sender writes it: reduced to 32 bits. */
  function Header(n: nat): (h: seq<byte>)
    ensures |h| == 4
  {
    [(n % 256) as byte, (n / 256 % 256) as byte, (n / 65536 % 256) as byte, (n / 16777216 % 256) as byte]
  }

  function HeaderValue(h: seq<byte>): (n: nat)
    requires |h| == 4
  {
    h[0] as nat + 256 * (h[1] as nat) + 65536 * (h[2] as nat) + 16777216 * (h[3] as nat)
  }

  lemma LowDigit(n: nat, q: nat, a: nat)
    requires n == 256 * q + a && a < 256
    ensures n / 256 == q && n % 256 == a
  {
  }

  lemma HeaderReads(n: nat)
    ensures HeaderValue(Header(n)) == n % 4294967296
    ensures n < LENGTH_LIMIT ==> HeaderValue(Header(n)) == n
  {
    var a, b, c := n / 256, n / 65536, n / 16777216;
    assert b == a / 256 && c == b / 256;
    assert n == 256 * a + n % 256 && a == 256 * b + a % 256 && b == 256 * c + b % 256;
    assert c == 256 * (c / 256) + c % 256;
    var v := HeaderValue(Header(n));
    assert n == v + 4294967296 * (c / 256) && 0 <= v < LENGTH_LIMIT;
  }

  lemma HeaderWrites(h: seq<byte>)
    requires |h| == 4
    ensures Header(HeaderValue(h)) == h
  {
    var a, b, c, d := h[0] as nat, h[1] as nat, h[2] as nat, h[3] as nat;
    var n := HeaderValue(h);
    var n1, n2 := b + 256 * c + 65536 * d, c + 256 * d;
    LowDigit(n, n1, a);
    LowDigit(n1, n2, b);
    LowDigit(n2, d, c);
    assert n / 65536 == n1 / 256 && n / 16777216 == n2 / 256;
  }

  /** `send_buffer`: the bytes of one message. */
  function Packet(m: Text): (p: seq<byte>)
    ensures |p| == 4 + |m|
  {
    Header(|m|) + m
  }

  /** A text whose length fits the header. */
  predicate Framable(m: Text) {
    |m| < LENGTH_LIMIT
  }

  ghost predicate AllFramable(ms: seq<Text>) {
    forall i :: 0 <= i < |ms| ==> Framable(ms[i])
  }

  ghost function Stream(ms: seq<Text>): seq<byte> {
    if ms == [] then [] else Packet(ms[0]) + Stream(ms[1..])
  }

  lemma {:induction false} StreamAppends(ms: seq<Text>, m: Text)
    ensures Stream(ms + [m]) == Stream(ms) + Packet(m)
  {
    if ms == [] {
      assert [m][1..] == [];
    } else {
      assert (ms + [m])[0] == ms[0] && (ms + [m])[1..] == ms[1..] + [m];
      StreamAppends(ms[1..], m);
    }
  }

  // ---- the receiver ----

  /** What the client waits for, and what of it has arrived. */
  datatype Reader = ReadingHeader(buf: seq<byte>) | ReadingBody(need: nat, buf: seq<byte>) {
    predicate Valid() {
      |buf| <= Wanted()
    }

    function Wanted(): nat {
      if ReadingHeader? then 4 else need
    }

    /** The read is complete and its handler can run. */
    predicate Ready() {
      |buf| == Wanted()
    }

    /** Between frames: waiting for a header, none of it here. */
    predicate Idle() {
      this == ReadingHeader([])
    }
  }

  function Take(r: Reader, b: byte): (r': Reader)
    requires r.Valid() && !r.Ready()
    ensures r'.Valid()
  {
    r.(buf := r.buf + [b])
  }

  /** The handler of a complete read: the next read, and the message if there is one. */
  function Handle(r: Reader): (h: (Reader, seq<Text>))
    requires r.Valid() && r.Ready()
    ensures h.0.Valid()
  {
    match r
    case ReadingHeader(buf) => (ReadingBody(HeaderValue(buf), []), [])
    case ReadingBody(_, buf) => (ReadingHeader([]), [buf])
  }

  /** The bytes of the current frame that have been consumed. */
  ghost function Pending(r: Reader): seq<byte> {
    match r
    case ReadingHeader(buf) => buf
    case ReadingBody(need, buf) => Header(need) + buf
  }

  /** What is consumed and what is still to come spell the frames of `ms`. */
  ghost predicate Spells(r: Reader, rest: seq<byte>, ms: seq<Text>) {
    && r.Valid() && AllFramable(ms) && (r.ReadingBody? ==> r.need < LENGTH_LIMIT)
    && Pending(r) + rest == Stream(ms)
  }

  lemma TakeSpells(r: Reader, rest: seq<byte>, ms: seq<Text>)
    requires Spells(r, rest, ms) && !r.Ready() && rest != []
    ensures Spells(Take(r, rest[0]), rest[1..], ms)
  {
    var r' := Take(r, rest[0]);
    assert Pending(r') == Pending(r) + [rest[0]] by {
      if r.ReadingBody? {
        Associate(Header(r.need), r.buf, [rest[0]]);
      }
    }
    Associate(Pending(r), [rest[0]], rest[1..]);
    assert [rest[0]] + rest[1..] == rest;
  }

  lemma HeaderSpells(r: Reader, rest: seq<byte>, ms: seq<Text>)
    requires Spells(r, rest, ms) && r.Ready() && r.ReadingHeader?
    ensures Spells(Handle(r).0, rest, ms) && Handle(r).1 == []
  {
    HeaderWrites(r.buf);
    assert Header(HeaderValue(r.buf)) + [] == r.buf;
  }

  lemma Cancel(a: seq<byte>, b: seq<byte>, c: seq<byte>, d: seq<byte>)
    requires |a| == |c| && a + b == c + d
    ensures a == c && b == d
  {
    assert a == (a + b)[..|a|] && c == (c + d)[..|a|];
    assert b == (a + b)[|a|..] && d == (c + d)[|a|..];
  }

  lemma Associate(a: seq<byte>, b: seq<byte>, c: seq<byte>)
    ensures (a + b) + c == a + (b + c)
  {
  }

  lemma HeaderInjective(m: nat, n: nat)
    requires m < LENGTH_LIMIT && n < LENGTH_LIMIT && Header(m) == Header(n)
    ensures m == n
  {
    HeaderReads(m);
    HeaderReads(n);
  }

  /** The header in front of a frame gives its length. */
  lemma HeaderDecides(need: nat, more: seq<byte>, m: Text, others: seq<byte>)
    requires Header(need) + more == Packet(m) + others && Framable(m) && need < LENGTH_LIMIT
    ensures need == |m| && more == m + others
  {
    var h := Header(|m|);
    Associate(h, m, others);
    Cancel(Header(need), more, h, m + others);
    HeaderInjective(need, |m|);
  }

  /** A complete body is the first message, and the rest spells the others. */
  lemma BodySpells(r: Reader, rest: seq<byte>, ms: seq<Text>)
    requires Spells(r, rest, ms) && r.Ready() && r.ReadingBody?
    ensures ms != [] && Handle(r).1 == [ms[0]] && Spells(Handle(r).0, rest, ms[1..])
  {
    Associate(Header(r.need), r.buf, rest);
    assert ms != [] by {
      assert |Pending(r) + rest| >= 4;
    }
    HeaderDecides(r.need, r.buf + rest, ms[0], Stream(ms[1..]));
    Cancel(r.buf, rest, ms[0], Stream(ms[1..]));
    assert [] + rest == rest;
  }

  // ---- a whole input ----

  /** What a reader does with `input`: handlers run as soon as their bytes are there. */
  function Feed(r: Reader, input: seq<byte>): (f: (Reader, seq<Text>))
    requires r.Valid()
    ensures f.0.Valid() && !f.0.Ready()
    decreases |input|, if !r.Ready() then 0 else if r.ReadingHeader? then 2 else 1
  {
    if r.Ready() then
      var h := Handle(r);
      var f := Feed(h.0, input);
      (f.0, h.1 + f.1)
    else if input == [] then (r, [])
    else Feed(Take(r, input[0]), input[1..])
  }

  /** Chunk by chunk. */
  function FeedAll(r: Reader, chunks: seq<seq<byte>>): (f: (Reader, seq<Text>))
    requires r.Valid()
    ensures f.0.Valid()
    decreases |chunks|
  {
    if chunks == [] then (r, [])
    else
      var f := Feed(r, chunks[0]);
      var g := FeedAll(f.0, chunks[1..]);
      (g.0, f.1 + g.1)
  }

  ghost function Joined(chunks: seq<seq<byte>>): seq<byte> {
    if chunks == [] then [] else chunks[0] + Joined(chunks[1..])
  }

  lemma {:induction false} FeedTwice(r: Reader, a: seq<byte>, b: seq<byte>)
    requires r.Valid()
    ensures var f := Feed(r, a); var g := Feed(f.0, b);
            Feed(r, a + b) == (g.0, f.1 + g.1)
    decreases |a|, if !r.Ready() then 0 else if r.ReadingHeader? then 2 else 1
  {
    if r.Ready() {
      var h := Handle(r);
      FeedTwice(h.0, a, b);
      assert h.1 + (Feed(h.0, a).1 + Feed(Feed(h.0, a).0, b).1)
          == (h.1 + Feed(h.0, a).1) + Feed(Feed(h.0, a).0, b).1;
    } else if a == [] {
      assert a + b == b && [] + Feed(r, b).1 == Feed(r, b).1;
    } else {
      assert (a + b)[0] == a[0] && (a + b)[1..] == a[1..] + b;
      FeedTwice(Take(r, a[0]), a[1..], b);
    }
  }

  /** How the bytes are cut into chunks makes no difference. */
  lemma {:induction false} ChunksDoNotMatter(r: Reader, chunks: seq<seq<byte>>)
    requires r.Valid() && !r.Ready()
    ensures FeedAll(r, chunks) == Feed(r, Joined(chunks))
    decreases |chunks|
  {
    if chunks != [] {
      ChunksDoNotMatter(Feed(r, chunks[0]).0, chunks[1..]);
      FeedTwice(r, chunks[0], Joined(chunks[1..]));
    }
  }

  /** Fed the first part of some frames, the reader delivers the first messages and still spells the others. */
  lemma {:induction false} FeedSpells(r: Reader, input: seq<byte>, rest: seq<byte>, ms: seq<Text>)
    requires Spells(r, input + rest, ms)
    ensures var f := Feed(r, input);
            && |f.1| <= |ms| && f.1 == ms[..|f.1|] && Spells(f.0, rest, ms[|f.1|..])
    decreases |input|, if !r.Ready() then 0 else if r.ReadingHeader? then 2 else 1
  {
    if r.Ready() {
      var h := Handle(r);
      var out := Feed(h.0, input).1;
      if r.ReadingHeader? {
        HeaderSpells(r, input + rest, ms);
        FeedSpells(h.0, input, rest, ms);
        assert Feed(r, input).1 == [] + out == out;
      } else {
        BodySpells(r, input + rest, ms);
        FeedSpells(h.0, input, rest, ms[1..]);
        assert Feed(r, input).1 == [ms[0]] + out;
        assert [ms[0]] + ms[1..][..|out|] == ms[..|out| + 1] && ms[1..][|out|..] == ms[|out| + 1..];
      }
    } else if input == [] {
      assert input + rest == rest && ms[0..] == ms && ms[..0] == [];
    } else {
      assert (input + rest)[0] == input[0] && (input + rest)[1..] == input[1..] + rest;
      TakeSpells(r, input + rest, ms);
      FeedSpells(Take(r, input[0]), input[1..], rest, ms);
    }
  }

  /** The first `k` frames are complete in the first `n` bytes, and the next one is not. */
  ghost predicate CompleteIn(ms: seq<Text>, n: nat, k: nat) {
    k <= |ms| && |Stream(ms[..k])| <= n && (k < |ms| ==> n < |Stream(ms[..k + 1])|)
  }

  lemma {:induction false} StreamsJoin(a: seq<Text>, b: seq<Text>)
    ensures Stream(a + b) == Stream(a) + Stream(b)
  {
    if a == [] {
      assert a + b == b;
    } else {
      StreamsJoin(a[1..], b);
      assert (a + b)[0] == a[0] && (a + b)[1..] == a[1..] + b;
      Associate(Packet(a[0]), Stream(a[1..]), Stream(b));
    }
  }

  lemma StreamSplits(ms: seq<Text>, k: nat)
    requires k <= |ms|
    ensures Stream(ms) == Stream(ms[..k]) + Stream(ms[k..])
  {
    var a, b := ms[..k], ms[k..];
    assert ms == a + b;
    StreamsJoin(a, b);
  }

  /** A reader that waits for bytes has less than a frame. */
  lemma WaitingIsShort(r: Reader, rest: seq<byte>, ms: seq<Text>)
    requires Spells(r, rest, ms) && !r.Ready() && ms != []
    ensures |Pending(r)| < |Packet(ms[0])|
  {
    if r.ReadingBody? {
      Associate(Header(r.need), r.buf, rest);
      HeaderDecides(r.need, r.buf + rest, ms[0], Stream(ms[1..]));
    }
  }

  /** What the reader has consumed: the delivered frames and the pending part of the next. */
  lemma Consumed(ms: seq<Text>, n: nat, k: nat, r: Reader)
    requires n <= |Stream(ms)| && k <= |ms| && Spells(r, Stream(ms)[n..], ms[k..])
    ensures |Stream(ms[..k])| + |Pending(r)| == n
  {
    StreamSplits(ms, k);
    assert |Pending(r)| + |Stream(ms)[n..]| == |Stream(ms[k..])|;
  }

  lemma NextIsLonger(ms: seq<Text>, k: nat)
    requires k < |ms|
    ensures |Stream(ms[..k + 1])| == |Stream(ms[..k])| + |Packet(ms[k])|
  {
    assert ms[..k + 1] == ms[..k] + [ms[k]];
    StreamAppends(ms[..k], ms[k]);
  }

  /**
   * The receive machine: at every moment, however the bytes were cut, it has
   * published exactly the messages whose frames have arrived completely.
   */
  lemma PublishesComplete(ms: seq<Text>, n: nat)
    requires AllFramable(ms) && n <= |Stream(ms)|
    ensures var out := Feed(ReadingHeader([]), Stream(ms)[..n]).1;
            CompleteIn(ms, n, |out|) && out == ms[..|out|]
  {
    var r, input, rest := ReadingHeader([]), Stream(ms)[..n], Stream(ms)[n..];
    assert input + rest == Stream(ms) && Pending(r) + (input + rest) == Stream(ms);
    FeedSpells(r, input, rest, ms);
    var f := Feed(r, input);
    var k := |f.1|;
    Consumed(ms, n, k, f.0);
    if k < |ms| {
      WaitingIsShort(f.0, rest, ms[k..]);
      NextIsLonger(ms, k);
    }
  }

  /** In particular the whole list, once all bytes are there. */
  lemma PublishesAll(ms: seq<Text>)
    requires AllFramable(ms)
    ensures Feed(ReadingHeader([]), Stream(ms)) == (ReadingHeader([]), ms)
  {
    var r := ReadingHeader([]);
    assert Stream(ms) + [] == Stream(ms) && Pending(r) + (Stream(ms) + []) == Stream(ms);
    FeedSpells(r, Stream(ms), [], ms);
    var f := Feed(r, Stream(ms));
    var left := ms[|f.1|..];
    if left != [] {
      WaitingIsShort(f.0, [], left);
    } else {
      assert Pending(f.0) == [];
      assert ms[..|f.1|] == ms;
    }
  }

  /** The same for bytes that arrive in chunks of any sizes. */
  lemma PublishesCompleteInChunks(ms: seq<Text>, chunks: seq<seq<byte>>)
    requires AllFramable(ms) && Joined(chunks) <= Stream(ms)
    ensures var out := FeedAll(ReadingHeader([]), chunks).1;
            CompleteIn(ms, |Joined(chunks)|, |out|) && out == ms[..|out|]
  {
    ChunksDoNotMatter(ReadingHeader([]), chunks);
    assert Joined(chunks) == Stream(ms)[..|Joined(chunks)|];
    PublishesComplete(ms, |Joined(chunks)|);
  }

  /** The length of a longer text is cut to 32 bits, and the frame falls apart. */
  lemma OneMessage(m: Text)
    ensures Feed(ReadingHeader([]), Packet(m)).1 == [m] <==> Framable(m)
  {
    var r, k := ReadingHeader([]), |m| % 4294967296;
    var short := m[..k];
    assert Stream([short]) == Packet(short) by {
      assert Stream([short]) == Packet(short) + Stream([short][1..]);
    }
    PublishesAll([short]);
    if Framable(m) {
      assert short == m;
    } else {
      HeaderReads(|m|);
      HeaderWrites(Header(|m|));
      assert Header(|m|) == Header(k);
      assert Packet(m) == Packet(short) + m[k..];
      FeedTwice(r, Packet(short), m[k..]);
      assert Feed(r, Packet(m)).1[0] == short;
    }
  }
}
