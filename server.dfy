/**
 * The cix server (asg5/cix-server.cpp): reads one 64-byte header at a
 * time and answers LS, PUT, RM and GET, reusing the request header for the
 * reply; anything else is logged and ignored. The session ends when the
 * client's bytes run out in the middle of a packet (socket_error), or with
 * the crash that follows a failed popen in reply_ls.
 */
module CixServer {
  import opened Outcomes
  import opened Wire
  import opened Transport
  import opened HostFs

  datatype Outcome = Continue | Closed | Crashed

  /** What answering one request does: the packets sent, the host after it, the bytes left to read. */
  datatype Exchange = Exchange(replies: seq<seq<byte>>, disk: Disk, rest: seq<byte>, outcome: Outcome)

  /** The listing `ls -l` prints for a host, or the errno of a failed popen. */
  type Lister = Disk -> Result<seq<byte>, nat>

  // ---------------------------------------------------------------------
  // One request
  // ---------------------------------------------------------------------

  /** reply_ls (cix-server.cpp:17-40). */
  function LsExchange(d: Disk, h: Header, rest: seq<byte>, listing: Result<seq<byte>, nat>): (x: Exchange)
    requires WfHeader(h)
  {
    match listing
    case Failure(e) =>
      // the NAK goes out with errno stored without htonl; fgets on the null pipe follows
      Exchange([Encode(h.(command := NAK, nbytes := HostOrder(e % Word)))], d, rest, Crashed)
    case Success(out) =>
      var reply := h.(command := LSOUT, nbytes := Htonl(|out| % Word), filename := Zeros(FilenameSize));
      Exchange([Encode(reply), out], d, rest, Continue)
  }

  /** reply_put (cix-server.cpp:42-70). */
  function PutExchange(d: Disk, h: Header, rest: seq<byte>): (x: Exchange)
    requires WfHeader(h)
  {
    var n := Count(Signed(Ntohl(h.nbytes)));
    var name := CString(h.filename);
    match OpenForWrite(d, name)
    case Failure(e) =>
      Exchange([Encode(h.(command := NAK, nbytes := Htonl(e % Word)))], d, rest, Continue)
    case Success(_) =>
      var written := Written(d, name, Received(rest, n));
      if |rest| < n then Exchange([], written, [], Closed)
      else Exchange([Encode(h.(command := ACK))], written, rest[n..], Continue)
  }

  /** reply_rm (cix-server.cpp:72-86). */
  function RmExchange(d: Disk, h: Header, rest: seq<byte>): (x: Exchange)
    requires WfHeader(h)
  {
    match Unlink(d, CString(h.filename))
    case Failure(e) => Exchange([Encode(h.(command := NAK, nbytes := Htonl(e % Word)))], d, rest, Continue)
    case Success(after) => Exchange([Encode(h.(command := ACK))], after, rest, Continue)
  }

  /** reply_get (cix-server.cpp:88-134). */
  function GetExchange(d: Disk, h: Header, rest: seq<byte>): (x: Exchange)
    requires WfHeader(h)
  {
    var name := CString(h.filename);
    match StatOf(d, name)
    case Failure(e) => Exchange([Encode(h.(command := NAK, nbytes := Htonl(e % Word)))], d, rest, Continue)
    case Success(Directory) => Exchange([Encode(h.(command := NAK))], d, rest, Continue)
    case Success(RegularFile(size)) =>
      var fileHeader := h.(command := FILE, nbytes := Htonl(size % Word));
      match OpenForRead(d, name)
      case Failure(_) => Exchange([Encode(fileHeader), Encode(fileHeader.(command := NAK))], d, rest, Continue)
      case Success(data) => Exchange([Encode(fileHeader)] + Chunks(data), d, rest, Continue)
  }

  /** The switch of the serving loop (cix-server.cpp:160-178). */
  function Respond(d: Disk, h: Header, rest: seq<byte>, lister: Lister): (x: Exchange)
    requires WfHeader(h)
    ensures |x.rest| <= |rest|
  {
    if h.command == LS then LsExchange(d, h, rest, lister(d))
    else if h.command == PUT then PutExchange(d, h, rest)
    else if h.command == RM then RmExchange(d, h, rest)
    else if h.command == GET then GetExchange(d, h, rest)
    else Exchange([], d, rest, Continue)
  }

  /** One pass of main's loop: the next header answered, or the client found gone. */
  function Step(d: Disk, inbox: seq<byte>, lister: Lister): (x: Exchange)
    ensures x.outcome == Continue ==> |x.rest| < |inbox|
  {
    if |inbox| < HeaderSize then Exchange([], d, [], Closed)
    else Respond(d, Decode(inbox[..HeaderSize]), inbox[HeaderSize..], lister)
  }

  /** The serving loop (cix-server.cpp:156-180) over everything the client sends. */
  function Session(d: Disk, inbox: seq<byte>, lister: Lister): (x: Exchange)
    ensures x.outcome != Continue
    decreases |inbox|
  {
    var first := Step(d, inbox, lister);
    if first.outcome != Continue then first
    else
      var later := Session(first.disk, first.rest, lister);
      Exchange(first.replies + later.replies, later.disk, later.rest, later.outcome)
  }

  // ---------------------------------------------------------------------
  // The handlers, on a socket
  // ---------------------------------------------------------------------

  method ReplyLs(sock: Socket, h: Header, d: Disk, listing: Result<seq<byte>, nat>) returns (crashed: bool)
    requires WfHeader(h)
    modifies sock
    ensures var x := LsExchange(d, h, old(sock.inbox), listing);
      sock.sent == old(sock.sent) + x.replies && sock.inbox == x.rest && crashed == (x.outcome == Crashed)
  {
    var header := h;
    if listing.Failure? {
      header := header.(command := NAK, nbytes := HostOrder(listing.error % Word));
      sock.Send(Encode(header));
      return true;
    }
    var output := listing.value;
    header := header.(command := LSOUT, nbytes := Htonl(|output| % Word), filename := Zeros(FilenameSize));
    sock.Send(Encode(header));
    sock.Send(output);
    return false;
  }

  method ReplyPut(sock: Socket, h: Header, d: Disk) returns (after: Disk, closed: bool)
    requires WfHeader(h)
    modifies sock
    ensures var x := PutExchange(d, h, old(sock.inbox));
      sock.sent == old(sock.sent) + x.replies && sock.inbox == x.rest && after == x.disk &&
      closed == (x.outcome == Closed)
  {
    var header := h;
    var nbytes := Signed(Ntohl(header.nbytes));
    var name := CString(header.filename);
    var stream := OpenForWrite(d, name);
    if stream.Failure? {
      header := header.(nbytes := Htonl(stream.error % Word), command := NAK);
      sock.Send(Encode(header));
      return d, false;
    }
    var got, ok := RecvChunks(sock, Count(nbytes));
    after := Written(d, name, got);
    if !ok {
      return after, true;
    }
    header := header.(command := ACK);
    sock.Send(Encode(header));
    closed := false;
  }

  method ReplyRm(sock: Socket, h: Header, d: Disk) returns (after: Disk)
    requires WfHeader(h)
    modifies sock
    ensures var x := RmExchange(d, h, old(sock.inbox));
      sock.sent == old(sock.sent) + x.replies && sock.inbox == x.rest && after == x.disk
  {
    var header := h;
    var rc := Unlink(d, CString(header.filename));
    if rc.Failure? {
      header := header.(nbytes := Htonl(rc.error % Word), command := NAK);
      sock.Send(Encode(header));
      return d;
    }
    header := header.(command := ACK);
    sock.Send(Encode(header));
    after := rc.value;
  }

  method ReplyGet(sock: Socket, h: Header, d: Disk)
    requires WfHeader(h)
    modifies sock
    ensures var x := GetExchange(d, h, old(sock.inbox));
      sock.sent == old(sock.sent) + x.replies && sock.inbox == x.rest && x.disk == d
  {
    var header := h;
    var name := CString(header.filename);
    var st := StatOf(d, name);
    if st.Failure? {
      header := header.(nbytes := Htonl(st.error % Word), command := NAK);
      sock.Send(Encode(header));
      return;
    }
    if st.value.Directory? {
      header := header.(command := NAK);
      sock.Send(Encode(header));
      return;
    }
    header := header.(command := FILE, nbytes := Htonl(st.value.size % Word));
    sock.Send(Encode(header));
    var ifs := OpenForRead(d, name);
    if ifs.Failure? {
      header := header.(command := NAK);
      sock.Send(Encode(header));
      return;
    }
    SendChunks(sock, ifs.value);
  }

  /** Answers one request on the socket; the value the switch of the serving loop computes. */
  method Dispatch(sock: Socket, h: Header, d: Disk, lister: Lister) returns (after: Disk, outcome: Outcome)
    requires WfHeader(h)
    modifies sock
    ensures var x := Respond(d, h, old(sock.inbox), lister);
      sock.sent == old(sock.sent) + x.replies && sock.inbox == x.rest && after == x.disk && outcome == x.outcome
  {
    after, outcome := d, Continue;
    if h.command == LS {
      var crashed := ReplyLs(sock, h, d, lister(d));
      if crashed {
        outcome := Crashed;
      }
    } else if h.command == PUT {
      var closed;
      after, closed := ReplyPut(sock, h, d);
      if closed {
        outcome := Closed;
      }
    } else if h.command == RM {
      after := ReplyRm(sock, h, d);
    } else if h.command == GET {
      ReplyGet(sock, h, d);
    }
  }

  /** One pass of main's loop: receive a header and answer it, or find the client gone. */
  method ServeOne(sock: Socket, d: Disk, lister: Lister) returns (after: Disk, outcome: Outcome, ghost first: Exchange)
    modifies sock
    ensures first == Step(d, old(sock.inbox), lister)
    ensures sock.sent == old(sock.sent) + first.replies && sock.inbox == first.rest
    ensures after == first.disk && outcome == first.outcome
  {
    first := Step(d, sock.inbox, lister);
    var raw := sock.Recv(HeaderSize);
    if raw.None? {
      return d, Closed, first;
    }
    var h := Decode(raw.value);
    after, outcome := Dispatch(sock, h, d, lister);
  }

  /** The serving loop answers the first header, then goes on with what is left unless that ended it. */
  lemma SessionStep(d: Disk, inbox: seq<byte>, lister: Lister, first: Exchange)
    requires first == Step(d, inbox, lister)
    ensures first.outcome != Continue ==> Session(d, inbox, lister) == first
    ensures first.outcome == Continue ==>
      Session(d, inbox, lister).replies == first.replies + Session(first.disk, first.rest, lister).replies &&
      Session(d, inbox, lister).disk == Session(first.disk, first.rest, lister).disk &&
      Session(d, inbox, lister).outcome == Session(first.disk, first.rest, lister).outcome &&
      Session(d, inbox, lister).rest == Session(first.disk, first.rest, lister).rest
  {
  }

  /**
   * main's loop (cix-server.cpp:156-180): header after header until the
   * client's bytes run out, or until reply_ls crashes.
   */
  method Serve(sock: Socket, d: Disk, lister: Lister) returns (after: Disk, outcome: Outcome)
    modifies sock
    ensures var x := Session(d, old(sock.inbox), lister);
      sock.sent == old(sock.sent) + x.replies && after == x.disk && outcome == x.outcome && sock.inbox == x.rest
  {
    after := d;
    ghost var whole := Session(d, sock.inbox, lister);
    ghost var left := whole;
    while true
      invariant left == Session(after, sock.inbox, lister)
      invariant old(sock.sent) + whole.replies == sock.sent + left.replies
      invariant whole.disk == left.disk && whole.outcome == left.outcome && whole.rest == left.rest
      decreases |sock.inbox|
    {
      ghost var (diskBefore, inboxBefore, sentBefore) := (after, sock.inbox, sock.sent);
      var step;
      ghost var first;
      after, step, first := ServeOne(sock, after, lister);
      SessionStep(diskBefore, inboxBefore, lister, first);
      if step != Continue {
        return after, step;
      }
      left := Session(after, sock.inbox, lister);
      Associative(sentBefore, first.replies, left.replies);
    }
  }

  // ---------------------------------------------------------------------
  // What the server promises
  // ---------------------------------------------------------------------

  /** A header on the wire, then the rest: the loop answers that header against the rest. */
  lemma StepOnHeader(d: Disk, h: Header, tail: seq<byte>, lister: Lister)
    requires WfHeader(h)
    ensures Step(d, Encode(h) + tail, lister) == Respond(d, h, tail, lister)
  {
    var inbox := Encode(h) + tail;
    assert inbox[..HeaderSize] == Encode(h) && inbox[HeaderSize..] == tail;
    DecodeEncode(h);
  }

  /** A request with any other command gets no reply, changes nothing, and the loop goes on. */
  lemma {:induction false} UnknownIgnored(d: Disk, h: Header, tail: seq<byte>, lister: Lister)
    requires WfHeader(h) && h.command !in {LS, PUT, RM, GET}
    ensures Session(d, Encode(h) + tail, lister) == Session(d, tail, lister)
  {
    StepOnHeader(d, h, tail, lister);
    SessionStep(d, Encode(h) + tail, lister, Step(d, Encode(h) + tail, lister));
  }

  /** The first packet of a reply, read as a header. */
  function FirstReply(x: Exchange): (h: Option<Header>)
    ensures h.Some? <==> |x.replies| > 0 && |x.replies[0]| == HeaderSize
    ensures h.Some? ==> WfHeader(h.value) && Encode(h.value) == x.replies[0]
  {
    if |x.replies| > 0 && |x.replies[0]| == HeaderSize then
      EncodeDecode(x.replies[0]);
      Some(Decode(x.replies[0]))
    else None
  }

  /**
   * PUT of a writable name: the payload is consumed in full, becomes the
   * file's contents, and the reply is ACK echoing the request.
   */
  lemma {:induction false} PutStores(d: Disk, name: string, data: seq<byte>, tail: seq<byte>, lister: Lister)
    requires Valid(d) && Sendable(name) && Writable(d, name) && |data| < 0x8000_0000
    ensures var request := Request(PUT, name, |data|);
      var x := Step(d, Encode(request) + (data + tail), lister);
      x.outcome == Continue && x.rest == tail && Valid(x.disk) &&
      x.disk.files == d.files[name := data] && x.disk.dirs == d.dirs &&
      x.replies == [Encode(request.(command := ACK))]
  {
    var request := Request(PUT, name, |data|);
    StepOnHeader(d, request, data + tail, lister);
    assert (data + tail)[..|data|] == data && (data + tail)[|data|..] == tail;
    WrittenValid(d, name, data);
  }

  /** PUT of a name the host will not open: NAK with the errno, and the payload is left unread. */
  lemma {:induction false} PutRefused(d: Disk, name: string, data: seq<byte>, tail: seq<byte>, lister: Lister)
    requires Sendable(name) && !Writable(d, name) && |data| < 0x8000_0000
    ensures var request := Request(PUT, name, |data|);
      var x := Step(d, Encode(request) + (data + tail), lister);
      var reply := FirstReply(x);
      reply.Some? && x.outcome == Continue && x.disk == d && x.rest == data + tail && |x.replies| == 1 &&
      reply.value.command == NAK && Ntohl(reply.value.nbytes) != 0 && CString(reply.value.filename) == name
  {
    var request := Request(PUT, name, |data|);
    StepOnHeader(d, request, data + tail, lister);
    var e := OpenForWrite(d, name).error;
    Fits(e);
    NtohlHtonl(e);
    DecodeEncode(request.(command := NAK, nbytes := Htonl(e % Word)));
  }

  /** GET of a readable file: FILE with its size and the name, then exactly its bytes. */
  lemma {:induction false} GetSends(d: Disk, name: string, tail: seq<byte>, lister: Lister)
    requires Valid(d) && Sendable(name) && name in d.files && name !in d.denied
    ensures var x := Step(d, Encode(Request(GET, name, 0)) + tail, lister);
      var reply := FirstReply(x);
      reply.Some? && x.outcome == Continue && x.disk == d && x.rest == tail && |x.replies| >= 1 &&
      reply.value.command == FILE && Ntohl(reply.value.nbytes) == |d.files[name]| && CString(reply.value.filename) == name &&
      Flat(x.replies) == x.replies[0] + d.files[name]
  {
    var request := Request(GET, name, 0);
    StepOnHeader(d, request, tail, lister);
    var data := d.files[name];
    var fileHeader := request.(command := FILE, nbytes := Htonl(|data| % Word));
    var x := GetExchange(d, request, tail);
    assert CString(request.filename) == name;
    assert StatOf(d, name) == Success(RegularFile(|data|));
    assert x == Exchange([Encode(fileHeader)] + Chunks(data), d, tail, Continue);
    assert Step(d, Encode(request) + tail, lister) == x;
    Fits(|data|);
    NtohlHtonl(|data| % Word);
    assert Ntohl(fileHeader.nbytes) == |data|;
    DecodeEncode(fileHeader);
    assert Decode(x.replies[0]) == fileHeader;
    assert FirstReply(x) == Some(fileHeader);
    FlatAppend([Encode(fileHeader)], Chunks(data));
    FlatOne(Encode(fileHeader));
  }

  /** GET of a name that does not exist: NAK carrying ENOENT, nothing else sent. */
  lemma {:induction false} GetMissing(d: Disk, name: string, tail: seq<byte>, lister: Lister)
    requires Sendable(name) && name !in d.files && name !in d.dirs
    ensures var x := Step(d, Encode(Request(GET, name, 0)) + tail, lister);
      var reply := FirstReply(x);
      reply.Some? && x.outcome == Continue && x.disk == d && x.rest == tail && |x.replies| == 1 &&
      reply.value.command == NAK && Ntohl(reply.value.nbytes) == ENOENT
  {
    var request := Request(GET, name, 0);
    StepOnHeader(d, request, tail, lister);
    Fits(ENOENT);
    NtohlHtonl(ENOENT);
    DecodeEncode(request.(command := NAK, nbytes := Htonl(ENOENT % Word)));
  }

  /** GET of a directory: NAK with the request's length field left as it came. */
  lemma {:induction false} GetDirectory(d: Disk, name: string, tail: seq<byte>, lister: Lister)
    requires Sendable(name) && name in d.dirs
    ensures var x := Step(d, Encode(Request(GET, name, 0)) + tail, lister);
      var reply := FirstReply(x);
      reply.Some? && x.outcome == Continue && x.disk == d && x.rest == tail && |x.replies| == 1 &&
      reply.value.command == NAK && Ntohl(reply.value.nbytes) == 0
  {
    var request := Request(GET, name, 0);
    StepOnHeader(d, request, tail, lister);
    DecodeEncode(request.(command := NAK));
  }

  /** RM: ACK and the file gone when unlink succeeds; otherwise NAK with the errno and nothing changed. */
  lemma {:induction false} RmRemoves(d: Disk, name: string, tail: seq<byte>, lister: Lister)
    requires Valid(d) && Sendable(name)
    ensures var x := Step(d, Encode(Request(RM, name, 0)) + tail, lister);
      var reply := FirstReply(x);
      reply.Some? && x.outcome == Continue && x.rest == tail && |x.replies| == 1 && Valid(x.disk) &&
      CString(reply.value.filename) == name &&
      (reply.value.command == ACK <==> name in d.files && name !in d.denied) &&
      (reply.value.command == ACK ==> x.disk.files == d.files - {name}) &&
      (reply.value.command != ACK ==> reply.value.command == NAK && Ntohl(reply.value.nbytes) != 0 && x.disk == d)
  {
    var request := Request(RM, name, 0);
    StepOnHeader(d, request, tail, lister);
    var rc := Unlink(d, name);
    if rc.Success? {
      UnlinkValid(d, name);
      DecodeEncode(request.(command := ACK));
    } else {
      Fits(rc.error);
      NtohlHtonl(rc.error);
      DecodeEncode(request.(command := NAK, nbytes := Htonl(rc.error % Word)));
    }
  }

  /** LS: LSOUT with an empty filename and the listing's length, then the listing; a failed popen ends the server. */
  lemma {:induction false} LsLists(d: Disk, tail: seq<byte>, lister: Lister)
    ensures var x := Step(d, Encode(Zeroed(LS)) + tail, lister);
      x.disk == d && x.rest == tail &&
      match lister(d)
      case Success(out) =>
        var reply := FirstReply(x);
        reply.Some? && x.outcome == Continue && |x.replies| == 2 && x.replies[1] == out &&
        reply.value.command == LSOUT && Ntohl(reply.value.nbytes) == |out| % Word && CString(reply.value.filename) == "" &&
        Flat(x.replies) == x.replies[0] + out
      case Failure(_) =>
        x.outcome == Crashed && |x.replies| == 1 && FirstReply(x).Some? && FirstReply(x).value.command == NAK
  {
    StepOnHeader(d, Zeroed(LS), tail, lister);
    match lister(d)
    case Success(out) =>
      var reply := Zeroed(LS).(command := LSOUT, nbytes := Htonl(|out| % Word), filename := Zeros(FilenameSize));
      DecodeEncode(reply);
      NtohlHtonl(|out| % Word);
      CStringPrefix(reply.filename, 0);
      FlatAppend([Encode(reply)], [out]);
      FlatOne(Encode(reply));
      FlatOne(out);
    case Failure(e) =>
      DecodeEncode(Zeroed(LS).(command := NAK, nbytes := HostOrder(e % Word)));
  }
}
