/**
 * The cix client (asg5/cix-client.cpp): reads command lines, splits them
 * into words, looks the first word up in the command table and runs ls,
 * put, rm or get against the server. put, rm and get check their
 * arguments before anything is sent; the local files are a host of the
 * same kind as the server's. A reply that stops short of the bytes asked
 * for is the socket_error that ends the client.
 */
module CixClient {
  import opened Outcomes
  import opened Wire
  import opened Transport
  import opened HostFs
  import opened Words

  /** The delimiters main hands to split. */
  const Separators: set<char> := {' ', '\t'}

  // ---------------------------------------------------------------------
  // The command table and the argument checks
  // ---------------------------------------------------------------------

  const CommandNames: set<string> := {"exit", "help", "ls", "put", "rm", "get"}

  /** The name command_map gives each command code; "" for codes it does not hold. */
  function CommandName(c: byte): string
  {
    if c == EXIT then "exit" else if c == HELP then "help" else if c == LS then "ls"
    else if c == PUT then "put" else if c == RM then "rm" else if c == GET then "get"
    else ""
  }

  /** command_map.find, with CIX_ERROR for a word the table does not hold. */
  function Lookup(word: string): (c: byte)
    ensures c != ERROR <==> word in CommandNames
    ensures c != ERROR ==> CommandName(c) == word
    ensures c in {ERROR, EXIT, HELP, LS, PUT, RM, GET}
  {
    if word == "exit" then EXIT else if word == "help" then HELP else if word == "ls" then LS
    else if word == "put" then PUT else if word == "rm" then RM else if word == "get" then GET
    else ERROR
  }

  /** Every code of the table is found again under its name. */
  lemma {:induction false} LookupName(c: byte)
    requires c in {EXIT, HELP, LS, PUT, RM, GET}
    ensures Lookup(CommandName(c)) == c && CommandName(c) in CommandNames
  {
    if c == EXIT {
      assert CommandName(c) == "exit";
    } else if c == HELP {
      assert CommandName(c) == "help";
    } else if c == LS {
      assert CommandName(c) == "ls";
    } else if c == PUT {
      assert CommandName(c) == "put";
    } else if c == RM {
      assert CommandName(c) == "rm";
    } else {
      assert CommandName(c) == "get";
    }
  }

  /**
   * The checks cix_put, cix_get and cix_rm make before sending anything:
   * the message they log, or None when the arguments pass. put and get
   * refuse names longer than 58 characters, rm names of CIX_FILENAME_SIZE
   * characters or more: the same names.
   */
  function Validate(verb: string, args: seq<string>): (r: Option<string>)
    requires verb in {"put", "get", "rm"}
    ensures r == None <==> |args| == 2 && |args[1]| < FilenameSize && '/' !in args[1]
  {
    if |args| < 2 then Some(verb + ": filename required")
    else if |args| > 2 then Some(verb + ": too many arguments")
    else if (if verb == "rm" then |args[1]| >= FilenameSize else |args[1]| > 58) then
      Some(verb + ": filename is too long")
    else if '/' in args[1] then Some(verb + ": filename cannot contain /")
    else None
  }

  // ---------------------------------------------------------------------
  // One command
  // ---------------------------------------------------------------------

  /** What a command line leads to, as the client logs or prints it. */
  datatype Event =
    | Blank                      // no words: the line is skipped
    | Quit                       // exit
    | Helped                     // help prints its summary
    | Invalid(line: string)      // the first word is not a command
    | Rejected(message: string)  // an argument check failed; nothing was sent
    | StatFailed(errno: nat)     // put: the local source cannot be stat'ed
    | IsDirectory                // put: the local source is a directory
    | OpenFailed                 // put: the source, or get: the target, cannot be opened
    | Unexpected(reply: Header)  // the server did not answer as expected
    | Acked                      // put or rm: the server answered ACK
    | Listed(text: string)       // ls: the listing as printed
    | Fetched(count: nat)        // get: the bytes received into the file
    | Broken                     // the server's bytes ended (socket_error)

  /** The events of a command that talks to the server. */
  predicate Exchanged(e: Event)
  {
    !(e.Blank? || e.Quit? || e.Helped? || e.Invalid?)
  }

  /** What one command does: the packets sent, the local host after it, the server's bytes left unread. */
  datatype Turn = Turn(sent: seq<seq<byte>>, disk: Disk, rest: seq<byte>, event: Event)

  /** cix_ls (cix-client.cpp:43-62). */
  function LsTurn(d: Disk, inbox: seq<byte>): (t: Turn)
    ensures t.sent == [Encode(Zeroed(LS))] && t.disk == d
    ensures Exchanged(t.event)
  {
    var request := Zeroed(LS);
    if |inbox| < HeaderSize then Turn([Encode(request)], d, [], Broken)
    else
      var reply := Decode(inbox[..HeaderSize]);
      var rest := inbox[HeaderSize..];
      if reply.command != LSOUT then Turn([Encode(request)], d, rest, Unexpected(reply))
      else
        var n := Ntohl(reply.nbytes);
        if |rest| < n then Turn([Encode(request)], d, [], Broken)
        else Turn([Encode(request)], d, rest[n..], Listed(CString(ByteChars(rest[..n]))))
  }

  /** cix_put (cix-client.cpp:64-131). */
  function PutTurn(d: Disk, args: seq<string>, inbox: seq<byte>): (t: Turn)
    requires forall k :: 0 <= k < |args| ==> ByteText(args[k])
    ensures t.disk == d
    ensures t.sent != [] <==> Validate("put", args) == None && args[1] !in d.dirs && args[1] in d.files
    ensures Exchanged(t.event)
  {
    match Validate("put", args)
    case Some(message) => Turn([], d, inbox, Rejected(message))
    case None =>
      var name := args[1];
      match StatOf(d, name)
      case Failure(e) => Turn([], d, inbox, StatFailed(e))
      case Success(Directory) => Turn([], d, inbox, IsDirectory)
      case Success(RegularFile(size)) =>
        var request := Request(PUT, name, size % Word);
        match OpenForRead(d, name)
        case Failure(_) => Turn([Encode(request)], d, inbox, OpenFailed)
        case Success(data) =>
          var sent := [Encode(request)] + Chunks(data);
          if |inbox| < HeaderSize then Turn(sent, d, [], Broken)
          else
            var reply := Decode(inbox[..HeaderSize]);
            Turn(sent, d, inbox[HeaderSize..], if reply.command == ACK then Acked else Unexpected(reply))
  }

  /** cix_rm (cix-client.cpp:133-171). */
  function RmTurn(d: Disk, args: seq<string>, inbox: seq<byte>): (t: Turn)
    requires forall k :: 0 <= k < |args| ==> ByteText(args[k])
    ensures t.disk == d
    ensures t.sent != [] <==> Validate("rm", args) == None
    ensures Exchanged(t.event)
  {
    match Validate("rm", args)
    case Some(message) => Turn([], d, inbox, Rejected(message))
    case None =>
      var request := Request(RM, args[1], 0);
      if |inbox| < HeaderSize then Turn([Encode(request)], d, [], Broken)
      else
        var reply := Decode(inbox[..HeaderSize]);
        Turn([Encode(request)], d, inbox[HeaderSize..], if reply.command == ACK then Acked else Unexpected(reply))
  }

  /**
   * cix_get (cix-client.cpp:173-230). The target is opened under the name
   * the reply carries; when it cannot be, the payload is still read and
   * dropped.
   */
  function GetTurn(d: Disk, args: seq<string>, inbox: seq<byte>): (t: Turn)
    requires forall k :: 0 <= k < |args| ==> ByteText(args[k])
    ensures t.sent != [] <==> Validate("get", args) == None
    ensures t.disk.dirs == d.dirs && t.disk.denied == d.denied
    ensures t.disk != d ==> t.sent != [] && |inbox| >= HeaderSize && Decode(inbox[..HeaderSize]).command == FILE
    ensures Exchanged(t.event)
  {
    match Validate("get", args)
    case Some(message) => Turn([], d, inbox, Rejected(message))
    case None =>
      var request := Request(GET, args[1], 0);
      if |inbox| < HeaderSize then Turn([Encode(request)], d, [], Broken)
      else
        var reply := Decode(inbox[..HeaderSize]);
        var rest := inbox[HeaderSize..];
        if reply.command != FILE then Turn([Encode(request)], d, rest, Unexpected(reply))
        else
          var n := Count(Signed(Ntohl(reply.nbytes)));
          var target := CString(reply.filename);
          var stored := OpenForWrite(d, target).Success?;
          var after := if stored then Written(d, target, Received(rest, n)) else d;
          if |rest| < n then Turn([Encode(request)], after, [], Broken)
          else Turn([Encode(request)], after, rest[n..], if stored then Fetched(n) else OpenFailed)
  }

  /** get, answered FILE with a length and a name: exactly that many bytes go into that file. */
  lemma {:induction false} GetReceives(d: Disk, args: seq<string>, reply: Header, data: seq<byte>, more: seq<byte>)
    requires forall k :: 0 <= k < |args| ==> ByteText(args[k])
    requires Validate("get", args) == None
    requires WfHeader(reply) && reply.command == FILE && Ntohl(reply.nbytes) == |data| < 0x8000_0000
    requires Writable(d, CString(reply.filename))
    ensures GetTurn(d, args, Encode(reply) + (data + more)) ==
      Turn([Encode(Request(GET, args[1], 0))], Written(d, CString(reply.filename), data), more, Fetched(|data|))
  {
    var inbox := Encode(reply) + (data + more);
    assert inbox[..HeaderSize] == Encode(reply) && inbox[HeaderSize..] == data + more;
    DecodeEncode(reply);
    assert Count(Signed(Ntohl(reply.nbytes))) == |data|;
    assert (data + more)[..|data|] == data && (data + more)[|data|..] == more;
  }

  /** get, answered with anything but FILE: the local files stay as they were and nothing more is read. */
  lemma {:induction false} GetRefused(d: Disk, args: seq<string>, reply: Header, more: seq<byte>)
    requires forall k :: 0 <= k < |args| ==> ByteText(args[k])
    requires Validate("get", args) == None
    requires WfHeader(reply) && reply.command != FILE
    ensures GetTurn(d, args, Encode(reply) + more) ==
      Turn([Encode(Request(GET, args[1], 0))], d, more, Unexpected(reply))
  {
    var inbox := Encode(reply) + more;
    assert inbox[..HeaderSize] == Encode(reply) && inbox[HeaderSize..] == more;
    DecodeEncode(reply);
  }

  /** ls, answered with a header other than LSOUT: no payload is read, and the header is reported. */
  lemma {:induction false} LsRefused(d: Disk, reply: Header, more: seq<byte>)
    requires WfHeader(reply) && reply.command != LSOUT
    ensures LsTurn(d, Encode(reply) + more) == Turn([Encode(Zeroed(LS))], d, more, Unexpected(reply))
  {
    var inbox := Encode(reply) + more;
    assert inbox[..HeaderSize] == Encode(reply) && inbox[HeaderSize..] == more;
    DecodeEncode(reply);
  }

  /** rm, answered with a header: ACK when the server sent ACK, and nothing more is read. */
  lemma {:induction false} RmAnswered(d: Disk, args: seq<string>, reply: Header, more: seq<byte>)
    requires forall k :: 0 <= k < |args| ==> ByteText(args[k])
    requires Validate("rm", args) == None
    requires WfHeader(reply)
    ensures RmTurn(d, args, Encode(reply) + more) ==
      Turn([Encode(Request(RM, args[1], 0))], d, more, if reply.command == ACK then Acked else Unexpected(reply))
  {
    var inbox := Encode(reply) + more;
    assert inbox[..HeaderSize] == Encode(reply) && inbox[HeaderSize..] == more;
    DecodeEncode(reply);
  }

  /** The words of a text of bytes are texts of bytes. */
  lemma {:induction false} TokensText(s: string, delims: set<char>)
    requires ByteText(s)
    ensures forall k :: 0 <= k < |Tokens(s, delims)| ==> ByteText(Tokens(s, delims)[k])
    decreases |s|
  {
    if s != [] {
      assert ByteText(s[1..]) by {
        forall i | 0 <= i < |s[1..]| ensures ByteChar(s[1..][i]) {
          assert s[1..][i] == s[i + 1];
        }
      }
      if s[0] in delims {
        TokensText(s[1..], delims);
      } else {
        var n := RunLength(s, delims);
        assert ByteText(s[n..]) by {
          forall i | 0 <= i < |s[n..]| ensures ByteChar(s[n..][i]) {
            assert s[n..][i] == s[n + i];
          }
        }
        TokensText(s[n..], delims);
        var ws := Tokens(s, delims);
        assert ws == [s[..n]] + Tokens(s[n..], delims);
        forall k | 0 <= k < |ws| ensures ByteText(ws[k]) {
          if k == 0 {
            forall i | 0 <= i < |ws[0]| ensures ByteChar(ws[0][i]) {
              assert ws[0][i] == s[i];
            }
          } else {
            assert ws[k] == Tokens(s[n..], delims)[k - 1];
          }
        }
      }
    }
  }

  /** One pass of main's loop over a line (cix-client.cpp:273-309). */
  function Obey(d: Disk, line: string, inbox: seq<byte>): (t: Turn)
    requires ByteText(line)
    ensures Tokens(line, Separators) == [] ==> t == Turn([], d, inbox, Blank)
    ensures t.event == Quit <==> Tokens(line, Separators) != [] && Tokens(line, Separators)[0] == "exit"
    ensures t.event == Invalid(line) <==>
      Tokens(line, Separators) != [] && Tokens(line, Separators)[0] !in CommandNames
  {
    var words := Tokens(line, Separators);
    TokensText(line, Separators);
    if words == [] then Turn([], d, inbox, Blank)
    else
      var c := Lookup(words[0]);
      if c == EXIT then Turn([], d, inbox, Quit)
      else if c == HELP then Turn([], d, inbox, Helped)
      else if c == LS then LsTurn(d, inbox)
      else if c == PUT then PutTurn(d, words, inbox)
      else if c == RM then RmTurn(d, words, inbox)
      else if c == GET then GetTurn(d, words, inbox)
      else Turn([], d, inbox, Invalid(line))
  }

  /** How the client's loop ends: exit, the end of its input, or a socket_error. */
  datatype Ending = Exited | EndOfInput | Disconnected

  /** A whole run of the client: the packets sent, the local host after it, what each line led to. */
  datatype Run = Run(sent: seq<seq<byte>>, disk: Disk, rest: seq<byte>, events: seq<Event>, ending: Ending)

  predicate Lines(lines: seq<string>)
  {
    forall i :: 0 <= i < |lines| ==> ByteText(lines[i])
  }

  /** main's loop (cix-client.cpp:273-310) over the complete lines of its input. */
  function Converse(d: Disk, lines: seq<string>, inbox: seq<byte>): (r: Run)
    requires Lines(lines)
    decreases |lines|
  {
    if lines == [] then Run([], d, inbox, [], EndOfInput)
    else
      var t := Obey(d, lines[0], inbox);
      if t.event == Quit then Run(t.sent, t.disk, t.rest, [Quit], Exited)
      else if t.event == Broken then Run(t.sent, t.disk, t.rest, [Broken], Disconnected)
      else
        var later := Converse(t.disk, lines[1..], t.rest);
        Run(t.sent + later.sent, later.disk, later.rest, [t.event] + later.events, later.ending)
  }

  /**
   * One event per line read: every line gets one until the input ends;
   * otherwise the last line read is the exit or the reply cut short that
   * ended the loop, and no earlier line was either.
   */
  lemma {:induction false} ConverseEnding(d: Disk, lines: seq<string>, inbox: seq<byte>)
    requires Lines(lines)
    ensures var r := Converse(d, lines, inbox);
      |r.events| <= |lines| &&
      (r.ending == EndOfInput ==> |r.events| == |lines|) &&
      (r.ending != EndOfInput ==>
        r.events != [] && r.events[|r.events| - 1] == (if r.ending == Exited then Quit else Broken)) &&
      forall i :: 0 <= i < |r.events| - 1 ==> r.events[i] != Quit && r.events[i] != Broken
    decreases |lines|
  {
    if lines != [] {
      var t := Obey(d, lines[0], inbox);
      if t.event != Quit && t.event != Broken {
        assert Lines(lines[1..]) by {
          forall i | 0 <= i < |lines[1..]| ensures ByteText(lines[1..][i]) {
            assert lines[1..][i] == lines[i + 1];
          }
        }
        ConverseEnding(t.disk, lines[1..], t.rest);
        var later := Converse(t.disk, lines[1..], t.rest);
        var r := Converse(d, lines, inbox);
        assert r.events == [t.event] + later.events;
        forall i | 0 <= i < |r.events| - 1 ensures r.events[i] != Quit && r.events[i] != Broken {
          if i > 0 {
            assert r.events[i] == later.events[i - 1];
          }
        }
      }
    }
  }

  // ---------------------------------------------------------------------
  // The commands, on a socket
  // ---------------------------------------------------------------------

  /** The reply put and rm wait for: ACK, anything else, or the server gone. */
  method AwaitAck(sock: Socket) returns (event: Event)
    modifies sock
    ensures |old(sock.inbox)| < HeaderSize ==> event == Broken && sock.inbox == []
    ensures |old(sock.inbox)| >= HeaderSize ==>
      var reply := Decode(old(sock.inbox)[..HeaderSize]);
      event == (if reply.command == ACK then Acked else Unexpected(reply)) &&
      sock.inbox == old(sock.inbox)[HeaderSize..]
    ensures sock.sent == old(sock.sent)
  {
    var raw := sock.Recv(HeaderSize);
    if raw.None? {
      return Broken;
    }
    var header := Decode(raw.value);
    event := if header.command != ACK then Unexpected(header) else Acked;
  }

  method CixLs(sock: Socket, d: Disk) returns (event: Event)
    modifies sock
    ensures var t := LsTurn(d, old(sock.inbox));
      sock.sent == old(sock.sent) + t.sent && sock.inbox == t.rest && event == t.event
  {
    var header := Zeroed(LS);
    sock.Send(Encode(header));
    var raw := sock.Recv(HeaderSize);
    if raw.None? {
      return Broken;
    }
    header := Decode(raw.value);
    if header.command != LSOUT {
      return Unexpected(header);
    }
    var nbytes := Ntohl(header.nbytes);
    var buffer := sock.Recv(nbytes);
    if buffer.None? {
      return Broken;
    }
    event := Listed(CString(ByteChars(buffer.value)));
  }

  method CixPut(sock: Socket, d: Disk, args: seq<string>) returns (event: Event)
    requires forall k :: 0 <= k < |args| ==> ByteText(args[k])
    modifies sock
    ensures var t := PutTurn(d, args, old(sock.inbox));
      sock.sent == old(sock.sent) + t.sent && sock.inbox == t.rest && event == t.event
  {
    var check := Validate("put", args);
    if check.Some? {
      return Rejected(check.value);
    }
    var st := StatOf(d, args[1]);
    if st.Failure? {
      return StatFailed(st.error);
    }
    if st.value.Directory? {
      return IsDirectory;
    }
    var header := Request(PUT, args[1], st.value.size % Word);
    ghost var before := sock.sent;
    sock.Send(Encode(header));
    var ifs := OpenForRead(d, args[1]);
    if ifs.Failure? {
      return OpenFailed;
    }
    SendChunks(sock, ifs.value);
    Associative(before, [Encode(header)], Chunks(ifs.value));
    event := AwaitAck(sock);
  }

  method CixRm(sock: Socket, d: Disk, args: seq<string>) returns (event: Event)
    requires forall k :: 0 <= k < |args| ==> ByteText(args[k])
    modifies sock
    ensures var t := RmTurn(d, args, old(sock.inbox));
      sock.sent == old(sock.sent) + t.sent && sock.inbox == t.rest && event == t.event
  {
    var check := Validate("rm", args);
    if check.Some? {
      return Rejected(check.value);
    }
    var header := Request(RM, args[1], 0);
    sock.Send(Encode(header));
    event := AwaitAck(sock);
  }

  method CixGet(sock: Socket, d: Disk, args: seq<string>) returns (after: Disk, event: Event)
    requires forall k :: 0 <= k < |args| ==> ByteText(args[k])
    modifies sock
    ensures var t := GetTurn(d, args, old(sock.inbox));
      sock.sent == old(sock.sent) + t.sent && sock.inbox == t.rest && after == t.disk && event == t.event
  {
    var check := Validate("get", args);
    if check.Some? {
      return d, Rejected(check.value);
    }
    var header := Request(GET, args[1], 0);
    sock.Send(Encode(header));
    var raw := sock.Recv(HeaderSize);
    if raw.None? {
      return d, Broken;
    }
    header := Decode(raw.value);
    if header.command != FILE {
      return d, Unexpected(header);
    }
    var nbytes := Signed(Ntohl(header.nbytes));
    var target := CString(header.filename);
    var out := OpenForWrite(d, target);
    var got, ok := RecvChunks(sock, Count(nbytes));
    after := if out.Success? then Written(d, target, got) else d;
    if !ok {
      return after, Broken;
    }
    event := if out.Success? then Fetched(Count(nbytes)) else OpenFailed;
  }

  /** Splits the line, looks up its first word and runs the command. */
  method Execute(sock: Socket, d: Disk, line: string) returns (after: Disk, event: Event, ghost turn: Turn)
    requires ByteText(line)
    modifies sock
    ensures turn == Obey(d, line, old(sock.inbox))
    ensures sock.sent == old(sock.sent) + turn.sent && sock.inbox == turn.rest
    ensures after == turn.disk && event == turn.event
  {
    turn := Obey(d, line, sock.inbox);
    after := d;
    var words := Split(line, Separators);
    TokensText(line, Separators);
    if |words| < 1 {
      return d, Blank, turn;
    }
    var c := Lookup(words[0]);
    if c == EXIT {
      event := Quit;
    } else if c == HELP {
      event := Helped;
    } else if c == LS {
      event := CixLs(sock, d);
    } else if c == PUT {
      event := CixPut(sock, d, words);
    } else if c == RM {
      event := CixRm(sock, d, words);
    } else if c == GET {
      after, event := CixGet(sock, d, words);
    } else {
      event := Invalid(line);
    }
  }

  /** The loop runs the first line, then goes on with the rest unless that line ended it. */
  lemma ConverseStep(d: Disk, lines: seq<string>, inbox: seq<byte>, turn: Turn)
    requires Lines(lines) && lines != [] && turn == Obey(d, lines[0], inbox)
    ensures turn.event == Quit ==> Converse(d, lines, inbox) == Run(turn.sent, turn.disk, turn.rest, [Quit], Exited)
    ensures turn.event == Broken ==>
      Converse(d, lines, inbox) == Run(turn.sent, turn.disk, turn.rest, [Broken], Disconnected)
    ensures turn.event != Quit && turn.event != Broken ==>
      var later := Converse(turn.disk, lines[1..], turn.rest);
      Converse(d, lines, inbox) ==
        Run(turn.sent + later.sent, later.disk, later.rest, [turn.event] + later.events, later.ending)
  {
  }

  /**
   * main (cix-client.cpp:273-315): line after line until exit, the end of
   * the input or a socket_error.
   */
  method Client(sock: Socket, d: Disk, lines: seq<string>) returns (after: Disk, events: seq<Event>, ending: Ending)
    requires Lines(lines)
    modifies sock
    ensures var r := Converse(d, lines, old(sock.inbox));
      sock.sent == old(sock.sent) + r.sent && sock.inbox == r.rest && after == r.disk &&
      events == r.events && ending == r.ending
  {
    after, events := d, [];
    ghost var whole := Converse(d, lines, sock.inbox);
    ghost var left := whole;
    var i := 0;
    while i < |lines|
      invariant 0 <= i <= |lines| && Lines(lines[i..])
      invariant left == Converse(after, lines[i..], sock.inbox)
      invariant old(sock.sent) + whole.sent == sock.sent + left.sent && events + left.events == whole.events
      invariant whole.disk == left.disk && whole.rest == left.rest && whole.ending == left.ending
    {
      ghost var (sentBefore, inboxBefore, diskBefore, eventsBefore) := (sock.sent, sock.inbox, after, events);
      assert lines[i..][0] == lines[i] && lines[i..][1..] == lines[i + 1..];
      var event;
      ghost var turn;
      after, event, turn := Execute(sock, after, lines[i]);
      ConverseStep(diskBefore, lines[i..], inboxBefore, turn);
      if event == Quit || event == Broken {
        return after, events + [event], if event == Quit then Exited else Disconnected;
      }
      left := Converse(after, lines[i + 1..], sock.inbox);
      Associative(sentBefore, turn.sent, left.sent);
      Associative(eventsBefore, [event], left.events);
      events := events + [event];
      i := i + 1;
    }
    assert lines[i..] == [];
    ending := EndOfInput;
  }
}
