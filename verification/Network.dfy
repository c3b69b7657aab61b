/** The server with its list of sessions, and the client's receiver. */
module Network {
  import opened Bytes
  import opened Wire

  /** One accepted socket: whether it is still open, and what has been written to it. */
  datatype Session = Session(open: bool, written: seq<byte>)

  /** A session after a broadcast of `data`. */
  function SentTo(s: Session, data: Text): Session {
    s.(written := s.written + Packet(data))
  }

  /** The open sessions, each with the text written to it, in order. */
  function Reached(ss: seq<Session>, data: Text): seq<Session> {
    if ss == [] then []
    else
      var n := |ss| - 1;
      if ss[n].open then Reached(ss[..n], data) + [SentTo(ss[n], data)] else Reached(ss[..n], data)
  }

  /** The list with a new session, sent the latest text unless that is empty. */
  function Accepted(ss: seq<Session>, latest: Text): seq<Session> {
    ss + [Session(true, if latest == [] then [] else Packet(latest))]
  }

  /** `send_buffer`: the length, then the bytes, in one packet. */
  method SendBuffer(s: Session, data: Text) returns (r: Session)
    ensures r == SentTo(s, data)
  {
    var packet := Header(|data|);
    packet := packet + data;
    r := s.(written := s.written + packet);
  }

  class TcpServer {
    var sessions: seq<Session>
    var latestData: Text

    constructor ()
      ensures sessions == [] && latestData == []
    {
      sessions, latestData := [], [];
    }

    /** A new client: it is listed, and gets the latest text unless that is empty. */
    method Accept()
      modifies this`sessions
      ensures sessions == Accepted(old(sessions), latestData)
    {
      var session := Session(true, []);
      if latestData != [] {
        session := SendBuffer(session, latestData);
        assert session.written == Packet(latestData);
      }
      sessions := sessions + [session];
    }

    /** `broadcast`: every open session is sent the text, the others are taken off the list. */
    method Broadcast(data: Text)
      modifies this
      ensures latestData == data && sessions == Reached(old(sessions), data)
    {
      latestData := data;
      ghost var all, k := sessions, 0;
      var it := 0;
      while it < |sessions|
        invariant 0 <= k <= |all| && it <= |sessions| && latestData == data
        invariant sessions[..it] == Reached(all[..k], data) && sessions[it..] == all[k..]
        decreases |all| - k
      {
        assert sessions[it] == sessions[it..][0] == all[k];
        assert all[..k + 1][..k] == all[..k] && all[k..][1..] == all[k + 1..];
        assert sessions[it + 1..] == sessions[it..][1..];
        if sessions[it].open {
          var sent := SendBuffer(sessions[it], data);
          sessions := sessions[it := sent];
          it := it + 1;
        } else {
          sessions := sessions[..it] + sessions[it + 1..];
        }
        k := k + 1;
      }
      assert all[..k] == all && sessions[..it] == sessions;
    }
  }

  /** The client's side as a value: the read in progress, and a mailbox of one text. */
  datatype Inbox = Inbox(reader: Reader, mailbox: Text, newData: bool)

  /** The read has completed: a header starts the read of its body, a body goes to the mailbox. */
  function Received(b: Inbox): Inbox
    requires b.reader.Valid() && b.reader.Ready()
  {
    var h := Handle(b.reader);
    if h.1 == [] then b.(reader := h.0) else Inbox(h.0, h.1[0], true)
  }

  /** The text is taken out of the mailbox; it stays there, but is not new any more. */
  function Emptied(b: Inbox): Inbox {
    b.(newData := false)
  }

  class TcpClient {
    var inBody: bool
    var wanted: nat
    var readBuf: seq<byte>
    var latestBuffer: Text
    var newData: bool

    function Model(): Inbox
      reads this
    {
      Inbox(if inBody then ReadingBody(wanted, readBuf) else ReadingHeader(readBuf), latestBuffer, newData)
    }

    constructor ()
      ensures Model() == Inbox(ReadingHeader([]), [], false)
    {
      inBody, wanted, readBuf, latestBuffer, newData := false, 4, [], [], false;
    }

    method DoReadHeader()
      modifies this`inBody, this`wanted, this`readBuf
      ensures Model() == old(Model()).(reader := ReadingHeader([]))
    {
      inBody, wanted, readBuf := false, 4, [];
    }

    method DoReadBody(length: nat)
      modifies this`inBody, this`wanted, this`readBuf
      ensures Model() == old(Model()).(reader := ReadingBody(length, []))
    {
      inBody, wanted, readBuf := true, length, [];
    }

    /** The handler of a completed read. */
    method OnRead()
      requires Model().reader.Valid() && Model().reader.Ready()
      modifies this
      ensures Model() == Received(old(Model()))
    {
      if !inBody {
        DoReadBody(HeaderValue(readBuf));
      } else {
        latestBuffer := readBuf;
        newData := true;
        DoReadHeader();
      }
    }

    method HasNewData() returns (r: bool)
      ensures r == newData
    {
      r := newData;
    }

    method GetLatestBuffer() returns (text: Text)
      modifies this`newData
      ensures text == latestBuffer && Model() == Emptied(old(Model()))
    {
      newData := false;
      text := latestBuffer;
    }
  }
}
