/**
 * The cix client and server talking to each other: what one command line
 * of the client does to the server's directory and what the client makes
 * of the answer. Each lemma feeds the client's packets to one pass of the
 * server's loop and the server's packets back to the client.
 */
module CixProtocol {
  import opened Outcomes
  import opened Wire
  import opened Transport
  import opened HostFs
  import opened CixServer
  import opened CixClient

  /** A name both sides accept: it passes the client's checks and comes back whole from the header. */
  predicate Name(name: string)
  {
    Sendable(name) && '/' !in name
  }

  lemma {:induction false} CommandText(verb: string, name: string)
    requires verb in {"put", "get", "rm"} && Name(name)
    ensures forall k :: 0 <= k < |[verb, name]| ==> ByteText([verb, name][k])
    ensures Validate(verb, [verb, name]) == None
  {
    assert ByteText(verb) by {
      forall i | 0 <= i < |verb| ensures ByteChar(verb[i]) {
        assert verb in {"put", "get", "rm"};
      }
    }
  }

  /** A header at the front of the bytes is read back as itself, and the rest follows. */
  lemma HeaderFirst(h: Header, more: seq<byte>)
    requires WfHeader(h)
    ensures |Encode(h) + more| >= HeaderSize
    ensures (Encode(h) + more)[..HeaderSize] == Encode(h) && (Encode(h) + more)[HeaderSize..] == more
    ensures Decode((Encode(h) + more)[..HeaderSize]) == h
  {
    DecodeEncode(h);
  }

  /** What put sends for a readable local file: its header, then exactly the file's bytes. */
  lemma {:induction false} PutBytes(cd: Disk, name: string, inbox: seq<byte>)
    requires Valid(cd) && Name(name) && name in cd.files && name !in cd.denied
    ensures (CommandText("put", name);
      var t := PutTurn(cd, ["put", name], inbox);
      Flat(t.sent) == Encode(Request(PUT, name, |cd.files[name]|)) + cd.files[name])
  {
    CommandText("put", name);
    var data := cd.files[name];
    Fits(|data|);
    var request := Request(PUT, name, |data|);
    assert name !in cd.dirs;
    assert PutTurn(cd, ["put", name], inbox).sent == [Encode(request)] + Chunks(data);
    FlatAppend([Encode(request)], Chunks(data));
    FlatOne(Encode(request));
  }

  /**
   * put of a readable local file to a name the server can write: the
   * server stores exactly the file's bytes under that name and answers
   * ACK, and the client reads just that answer.
   */
  lemma {:induction false} PutRoundTrip(cd: Disk, sd: Disk, name: string, tail: seq<byte>, more: seq<byte>, lister: Lister)
    requires Valid(cd) && Name(name) && name in cd.files && name !in cd.denied
    requires Valid(sd) && Writable(sd, name)
    ensures (CommandText("put", name);
      var request := PutTurn(cd, ["put", name], []).sent;
      var x := Step(sd, Flat(request) + tail, lister);
      var t := PutTurn(cd, ["put", name], Flat(x.replies) + more);
      t.sent == request && t.event == Acked && t.rest == more &&
      x.outcome == Continue && x.rest == tail && x.disk.files == sd.files[name := cd.files[name]])
  {
    CommandText("put", name);
    var data := cd.files[name];
    var header := Request(PUT, name, |data|);
    PutBytes(cd, name, []);
    var request := PutTurn(cd, ["put", name], []).sent;
    Associative(Encode(header), data, tail);
    PutStores(sd, name, data, tail, lister);
    var x := Step(sd, Flat(request) + tail, lister);
    var ack := header.(command := ACK);
    FlatOne(Encode(ack));
    HeaderFirst(ack, more);
    Fits(|data|);
    assert name !in cd.dirs;
  }

  /**
   * get of a file the server can read, into a name the client can write:
   * the client's file ends up holding exactly the server's bytes, and the
   * client reads nothing past them.
   */
  lemma {:induction false} GetRoundTrip(cd: Disk, sd: Disk, name: string, tail: seq<byte>, more: seq<byte>, lister: Lister)
    requires Valid(sd) && Name(name) && name in sd.files && name !in sd.denied
    requires Writable(cd, name)
    ensures (CommandText("get", name);
      var request := GetTurn(cd, ["get", name], []).sent;
      var x := Step(sd, Flat(request) + tail, lister);
      var t := GetTurn(cd, ["get", name], Flat(x.replies) + more);
      Flat(request) == Encode(Request(GET, name, 0)) && x.rest == tail && x.disk == sd &&
      t.event == Fetched(|sd.files[name]|) && t.rest == more && t.disk.files == cd.files[name := sd.files[name]])
  {
    CommandText("get", name);
    var header := Request(GET, name, 0);
    assert GetTurn(cd, ["get", name], []).sent == [Encode(header)];
    FlatOne(Encode(header));
    var data := sd.files[name];
    var reply := GetServed(sd, name, tail, lister);
    var x := Step(sd, Encode(header) + tail, lister);
    assert GetTurn(cd, ["get", name], Flat(x.replies) + more) ==
      Turn([Encode(header)], Written(cd, name, data), more, Fetched(|data|)) by {
      Associative(Encode(reply), data, more);
      GetReceives(cd, ["get", name], reply, data, more);
    }
  }

  /** The server's answer to get of a readable file, as one header and the file's bytes. */
  lemma GetServed(sd: Disk, name: string, tail: seq<byte>, lister: Lister) returns (reply: Header)
    requires Valid(sd) && Sendable(name) && name in sd.files && name !in sd.denied
    ensures WfHeader(reply) && reply.command == FILE && CString(reply.filename) == name
    ensures Ntohl(reply.nbytes) == |sd.files[name]| < 0x8000_0000
    ensures var x := Step(sd, Encode(Request(GET, name, 0)) + tail, lister);
      Flat(x.replies) == Encode(reply) + sd.files[name] && x.rest == tail && x.disk == sd
  {
    GetSends(sd, name, tail, lister);
    reply := FirstReply(Step(sd, Encode(Request(GET, name, 0)) + tail, lister)).value;
  }

  /** get of a name the server does not have: the client reports the NAK and keeps its files. */
  lemma {:induction false} GetMissingRoundTrip(cd: Disk, sd: Disk, name: string, tail: seq<byte>, more: seq<byte>, lister: Lister)
    requires Name(name) && name !in sd.files && name !in sd.dirs
    ensures (CommandText("get", name);
      var request := GetTurn(cd, ["get", name], []).sent;
      var x := Step(sd, Flat(request) + tail, lister);
      var t := GetTurn(cd, ["get", name], Flat(x.replies) + more);
      t.event.Unexpected? && t.event.reply.command == NAK && Ntohl(t.event.reply.nbytes) == ENOENT &&
      t.disk == cd && t.rest == more)
  {
    CommandText("get", name);
    var header := Request(GET, name, 0);
    var request := GetTurn(cd, ["get", name], []).sent;
    assert request == [Encode(header)];
    FlatOne(Encode(header));
    GetMissing(sd, name, tail, lister);
    var x := Step(sd, Flat(request) + tail, lister);
    var reply := FirstReply(x).value;
    assert x.replies == [Encode(reply)];
    FlatOne(Encode(reply));
    GetRefused(cd, ["get", name], reply, more);
  }

  /** rm: the client hears ACK exactly when the server removed the file. */
  lemma {:induction false} RmRoundTrip(cd: Disk, sd: Disk, name: string, tail: seq<byte>, more: seq<byte>, lister: Lister)
    requires Valid(sd) && Name(name)
    ensures (CommandText("rm", name);
      var request := RmTurn(cd, ["rm", name], []).sent;
      var x := Step(sd, Flat(request) + tail, lister);
      var t := RmTurn(cd, ["rm", name], Flat(x.replies) + more);
      (t.event == Acked <==> name in sd.files && name !in sd.denied) &&
      (t.event == Acked ==> x.disk.files == sd.files - {name}) &&
      (t.event != Acked ==> x.disk == sd) && t.rest == more && x.rest == tail)
  {
    CommandText("rm", name);
    var header := Request(RM, name, 0);
    assert RmTurn(cd, ["rm", name], []).sent == [Encode(header)];
    FlatOne(Encode(header));
    var reply := RmServed(sd, name, tail, lister);
    RmAnswered(cd, ["rm", name], reply, more);
  }

  /** The server's answer to rm, as one header: ACK exactly when the file could be unlinked. */
  lemma RmServed(sd: Disk, name: string, tail: seq<byte>, lister: Lister) returns (reply: Header)
    requires Valid(sd) && Sendable(name)
    ensures WfHeader(reply)
    ensures var x := Step(sd, Encode(Request(RM, name, 0)) + tail, lister);
      Flat(x.replies) == Encode(reply) && x.rest == tail &&
      (reply.command == ACK <==> name in sd.files && name !in sd.denied) &&
      (reply.command == ACK ==> x.disk.files == sd.files - {name}) &&
      (reply.command != ACK ==> x.disk == sd)
  {
    RmRemoves(sd, name, tail, lister);
    var x := Step(sd, Encode(Request(RM, name, 0)) + tail, lister);
    reply := FirstReply(x).value;
    assert x.replies == [Encode(reply)];
    FlatOne(Encode(reply));
  }

  /** ls: the client prints the server's listing up to its first NUL byte. */
  lemma {:induction false} LsRoundTrip(cd: Disk, sd: Disk, out: seq<byte>, tail: seq<byte>, more: seq<byte>, lister: Lister)
    requires lister(sd) == Success(out) && |out| < Word
    ensures var x := Step(sd, Flat(LsTurn(cd, []).sent) + tail, lister);
      var t := LsTurn(cd, Flat(x.replies) + more);
      t.event == Listed(CString(ByteChars(out))) && t.rest == more && x.rest == tail && x.disk == sd
  {
    FlatOne(Encode(Zeroed(LS)));
    LsLists(sd, tail, lister);
    var x := Step(sd, Flat(LsTurn(cd, []).sent) + tail, lister);
    var reply := FirstReply(x).value;
    Fits(|out|);
    Associative(Encode(reply), out, more);
    HeaderFirst(reply, out + more);
    assert (out + more)[..|out|] == out && (out + more)[|out|..] == more;
  }
}
